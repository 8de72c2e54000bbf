/** Optional values, used for the newline probe that can fail. */
module Options {
  datatype Option<T> = None | Some(value: T)
}

/**
 * The record wire format `<station>;[-]D{1,2}.D\n`, the fixed-point value
 * of a record in tenths, and the 32-bit FNV-1a hash of a station name.
 */
module Wire {

  /** One byte of the measurements file. */
  type byte = b: int | 0 <= b < 256

  /** A decimal digit value. */
  type Digit = x: int | 0 <= x <= 9

  const NL: byte := 10     // '\n'
  const MINUS: byte := 45  // '-'
  const DOT: byte := 46    // '.'
  const ZERO: byte := 48   // '0'
  const SEMI: byte := 59   // ';'

  /** FNV-1a parameters, as 32-bit words. */
  const FnvOffsetBasis: bv32 := 2166136261
  const FnvPrime: bv32 := 16777619

  /**
   * The shortest record with a one-byte name, `A;0.0\n`. The decoder
   * skips a window whose terminal newline comes before this length.
   */
  const MinReading: seq<byte> := [65, SEMI, ZERO, DOT, ZERO, NL]
  const LenMinReading: nat := |MinReading|

  function DigitByte(x: Digit): byte { ZERO + x }

  /**
   * Go's `b &^ '0'`: the byte with the two bits of 0x30 (bits 4 and 5)
   * cleared. On the bytes '0'..'9' this is the digit value; on any other
   * byte it is just some smaller byte (the source does no format check).
   */
  function ClearZeroBits(b: byte): (r: byte)
    ensures ZERO <= b <= ZERO + 9 ==> r == b - ZERO
    ensures r <= b && (r / 16) % 4 == 0 && r % 16 == b % 16 && r / 64 == b / 64
  {
    64 * (b / 64) + b % 16
  }

  /** The integer part of a reading: one digit, or a tens and a ones digit. */
  datatype Whole = Units(ones: Digit) | TensUnits(tens: Digit, ones: Digit)

  /**
   * One line of the file, as its fields: the station name, an optional
   * minus sign, the integer part and the tenths digit.
   */
  datatype Line = Line(station: seq<byte>, negative: bool, whole: Whole, tenths: Digit)

  /** A station name holds no newline. The decoder also reads an empty name. */
  predicate ValidStation(s: seq<byte>) {
    forall j :: 0 <= j < |s| ==> s[j] != NL
  }

  predicate ValidLine(l: Line) {
    ValidStation(l.station)
  }

  function WholeBytes(w: Whole): seq<byte> {
    match w
    case Units(o) => [DigitByte(o)]
    case TensUnits(t, o) => [DigitByte(t), DigitByte(o)]
  }

  function SignBytes(negative: bool): seq<byte> {
    if negative then [MINUS] else []
  }

  /**
   * The number of bytes of a line: the station, the semicolon, the sign,
   * one or two integer digits, the dot, the tenths digit and the newline.
   */
  function Width(l: Line): nat {
    |l.station| + (if l.negative then 1 else 0) + (if l.whole.TensUnits? then 2 else 1) + 4
  }

  /** A line shorter than `MinReading`, which the decoder can skip. */
  predicate Tiny(l: Line) {
    Width(l) < LenMinReading
  }

  /** The tiny lines are exactly the five-byte lines `;D.D\n`, with an empty name. */
  lemma TinyShape(l: Line)
    ensures Tiny(l) <==> Width(l) == LenMinReading - 1
    ensures Tiny(l) <==> l.station == [] && !l.negative && l.whole.Units?
  {
  }

  /** The bytes of a line, newline included. */
  function Serialize(l: Line): (s: seq<byte>)
    ensures |s| == Width(l)
  {
    l.station + [SEMI] + SignBytes(l.negative) + WholeBytes(l.whole)
      + [DOT, DigitByte(l.tenths), NL]
  }

  /** The magnitude of a reading in tenths. */
  function Magnitude(l: Line): nat {
    match l.whole
    case Units(o) => 10 * o + l.tenths
    case TensUnits(t, o) => 100 * t + 10 * o + l.tenths
  }

  /** The signed value of a reading in tenths (`-3.2` is `-32`). */
  function Value(l: Line): (t: int)
    ensures -999 <= t <= 999
    ensures t < 0 ==> l.negative
    ensures t > 0 ==> !l.negative
  {
    var m: int := Magnitude(l);
    if l.negative then -m else m
  }

  /**
   * The canonical line for a value t in tenths: a minus sign when t < 0,
   * |t| / 10 with no leading zero, a dot and |t| % 10.
   */
  function FromTenths(station: seq<byte>, t: int): Line
    requires -999 <= t <= 999
  {
    var m := if t < 0 then -t else t;
    var w := if m >= 100 then TensUnits(m / 100, m / 10 % 10) else Units(m / 10);
    Line(station, t < 0, w, m % 10)
  }

  /** The decimal digits of n < 100, with no leading zero. */
  function DecimalBytes(n: nat): seq<byte>
    requires n < 100
  {
    if n < 10 then [DigitByte(n)] else [DigitByte(n / 10), DigitByte(n % 10)]
  }

  /**
   * The canonical line of t is the text `station;[-]<|t|/10>.<|t|%10>\n`,
   * and its value is exactly t again.
   */
  lemma FromTenthsRoundTrip(station: seq<byte>, t: int)
    requires -999 <= t <= 999
    ensures var m := if t < 0 then -t else t;
      Serialize(FromTenths(station, t))
        == station + [SEMI] + SignBytes(t < 0) + DecimalBytes(m / 10) + [DOT, DigitByte(m % 10), NL]
    ensures Value(FromTenths(station, t)) == t
    ensures ValidStation(station) ==> ValidLine(FromTenths(station, t))
  {
    var m := if t < 0 then -t else t;
    assert m == 100 * (m / 100) + 10 * (m / 10 % 10) + m % 10;
  }

  /** One FNV-1a step: xor the byte in, then multiply, modulo 2^32. */
  function FnvStep(h: bv32, b: byte): bv32 {
    (h ^ (b as bv32)) * FnvPrime
  }

  /** Standard FNV-1a over the bytes in the order given. */
  function Fnv1a(h: bv32, bs: seq<byte>): bv32
    decreases |bs|
  {
    if bs == [] then h else Fnv1a(FnvStep(h, bs[0]), bs[1..])
  }

  function ReverseBytes(s: seq<byte>): (r: seq<byte>)
    ensures |r| == |s|
    ensures forall j :: 0 <= j < |s| ==> r[j] == s[|s| - 1 - j]
  {
    if s == [] then [] else ReverseBytes(s[1..]) + [s[0]]
  }

  /**
   * The station hash the decoder computes: the bytes are folded from the
   * last to the first, so the first byte is folded last.
   */
  function NameHash(s: seq<byte>): bv32 {
    if s == [] then FnvOffsetBasis else FnvStep(NameHash(s[1..]), s[0])
  }

  lemma {:induction false} Fnv1aSnoc(h: bv32, bs: seq<byte>, b: byte)
    ensures Fnv1a(h, bs + [b]) == FnvStep(Fnv1a(h, bs), b)
    decreases |bs|
  {
    if bs != [] {
      assert (bs + [b])[1..] == bs[1..] + [b];
      Fnv1aSnoc(FnvStep(h, bs[0]), bs[1..], b);
    }
  }

  /** The decoder's hash is FNV-1a over the name read backwards. */
  lemma {:induction false} NameHashIsReversedFnv1a(s: seq<byte>)
    ensures NameHash(s) == Fnv1a(FnvOffsetBasis, ReverseBytes(s))
    decreases |s|
  {
    if s != [] {
      NameHashIsReversedFnv1a(s[1..]);
      Fnv1aSnoc(FnvOffsetBasis, ReverseBytes(s[1..]), s[0]);
    }
  }

  /**
   * The bytes of a line placed at offset q of d, read from the end e of
   * the line, as the decoder reads them; c is the semicolon's offset.
   */
  lemma PlacedLineBytes(d: seq<byte>, q: int, l: Line)
    requires ValidLine(l) && 0 <= q && q + Width(l) <= |d| && d[q..q + Width(l)] == Serialize(l)
    ensures var e := q + Width(l); var c := q + |l.station|;
      && d[e - 2] == DigitByte(l.tenths) && d[e - 3] == DOT && d[e - 4] == DigitByte(l.whole.ones)
      && d[c] == SEMI
      && (l.whole.TensUnits? ==> d[e - 5] == DigitByte(l.whole.tens))
      && c == e - 5 - (if l.whole.TensUnits? then 1 else 0) - (if l.negative then 1 else 0)
      && (l.negative ==> d[c + 1] == MINUS)
  {
    var s := Serialize(l);
    var n := |s|;
    SerializeShape(l);
    var w := d[q..q + n];
    assert d[q + n - 2] == w[n - 2] && d[q + n - 3] == w[n - 3] && d[q + n - 4] == w[n - 4];
    assert d[q + |l.station|] == w[|l.station|];
    if l.whole.TensUnits? {
      assert d[q + n - 5] == w[n - 5];
    }
    if l.negative {
      assert d[q + |l.station| + 1] == w[|l.station| + 1];
    }
  }

  /**
   * The bytes of a line, read from its end: newline, tenths digit, dot,
   * ones digit, then an optional tens digit, an optional minus and the
   * semicolon that closes the station name. No byte but the last is a
   * newline.
   */
  lemma SerializeShape(l: Line)
    requires ValidLine(l)
    ensures var s := Serialize(l); var n := |s|; var c := |l.station|;
      && n >= LenMinReading - 1
      && s[n - 1] == NL && s[n - 2] == DigitByte(l.tenths) && s[n - 3] == DOT
      && s[n - 4] == DigitByte(l.whole.ones)
      && s[c] == SEMI && s[..c] == l.station
      && (l.whole.TensUnits? ==> s[n - 5] == DigitByte(l.whole.tens))
      && c == n - 5 - (if l.whole.TensUnits? then 1 else 0) - (if l.negative then 1 else 0)
      && (l.negative ==> s[c + 1] == MINUS)
      && (forall j :: 0 <= j < n - 1 ==> s[j] != NL)
  {
  }
}
