/**
 * A measurements file seen as the lines it is made of: the records of
 * complete lines, then a tail with no newline that no scan decodes.
 * Offsets of line boundaries, the runs of lines a window of the file
 * holds, and the records the decoder produces for a run of lines.
 */
module Layout {
  import opened Wire
  import opened Aggregation

  /** The record the decoder hands to the table for one line. */
  function Reading(l: Line): Record {
    Record(l.station, NameHash(l.station), Value(l))
  }

  predicate ValidLines(ls: seq<Line>) {
    forall j :: 0 <= j < |ls| ==> ValidLine(ls[j])
  }

  /** The records of the lines a..b, last line first. */
  function Backward(ls: seq<Line>, a: nat, b: nat): seq<Record>
    requires a <= b <= |ls|
    decreases b - a
  {
    if a == b then [] else Backward(ls, a + 1, b) + [Reading(ls[a])]
  }

  /** The records of the lines a..b, as a multiset. */
  function Bag(ls: seq<Line>, a: nat, b: nat): multiset<Record>
    requires a <= b <= |ls|
    decreases b - a
  {
    if a == b then multiset{} else multiset{Reading(ls[a])} + Bag(ls, a + 1, b)
  }

  /** The lines a..b are the lines a..m and then the lines m..b. */
  lemma {:induction false} BagSplit(ls: seq<Line>, a: nat, m: nat, b: nat)
    requires a <= m <= b <= |ls|
    ensures Bag(ls, a, b) == Bag(ls, a, m) + Bag(ls, m, b)
    decreases m - a
  {
    if a < m {
      BagSplit(ls, a + 1, m, b);
      var r := multiset{Reading(ls[a])};
      assert Bag(ls, a, b) == r + Bag(ls, a + 1, b);
      assert Bag(ls, a, m) == r + Bag(ls, a + 1, m);
    }
  }

  /** Decoding backwards yields the same multiset as the lines in order. */
  lemma {:induction false} BackwardBag(ls: seq<Line>, a: nat, b: nat)
    requires a <= b <= |ls|
    ensures multiset(Backward(ls, a, b)) == Bag(ls, a, b)
    decreases b - a
  {
    if a < b {
      BackwardBag(ls, a + 1, b);
      var rest := Backward(ls, a + 1, b);
      assert multiset(rest + [Reading(ls[a])]) == multiset(rest) + multiset{Reading(ls[a])};
    }
  }

  /** The records of the lines a..b that are not tiny, as a multiset. */
  function Kept(ls: seq<Line>, a: nat, b: nat): multiset<Record>
    requires a <= b <= |ls|
    decreases b - a
  {
    if a == b then multiset{}
    else (if Tiny(ls[a]) then multiset{} else multiset{Reading(ls[a])}) + Kept(ls, a + 1, b)
  }

  lemma {:induction false} KeptSplit(ls: seq<Line>, a: nat, m: nat, b: nat)
    requires a <= m <= b <= |ls|
    ensures Kept(ls, a, b) == Kept(ls, a, m) + Kept(ls, m, b)
    decreases m - a
  {
    if a < m {
      KeptSplit(ls, a + 1, m, b);
      var r := if Tiny(ls[a]) then multiset{} else multiset{Reading(ls[a])};
      assert Kept(ls, a, b) == r + Kept(ls, a + 1, b);
      assert Kept(ls, a, m) == r + Kept(ls, a + 1, m);
    }
  }

  /** The kept records are among the records of the run. */
  lemma {:induction false} KeptWithin(ls: seq<Line>, a: nat, b: nat)
    requires a <= b <= |ls|
    ensures Kept(ls, a, b) <= Bag(ls, a, b)
    decreases b - a
  {
    if a < b {
      KeptWithin(ls, a + 1, b);
    }
  }

  /** A run with no tiny line keeps all of its records. */
  lemma {:induction false} KeptAll(ls: seq<Line>, a: nat, b: nat)
    requires a <= b <= |ls|
    requires forall j :: a <= j < b ==> !Tiny(ls[j])
    ensures Kept(ls, a, b) == Bag(ls, a, b)
    decreases b - a
  {
    if a < b {
      KeptAll(ls, a + 1, b);
    }
  }

  /**
   * A table that held `before` holds `after` once a scan of the lines
   * a..b has added to it: at most one record per line of the run, and at
   * least the record of every line that is not tiny.
   */
  ghost predicate Scanned(after: multiset<Record>, before: multiset<Record>, ls: seq<Line>, a: nat, b: nat)
    requires a <= b <= |ls|
  {
    before + Kept(ls, a, b) <= after <= before + Bag(ls, a, b)
  }

  /** Adding a multiset between the kept records and the bag is a scan. */
  lemma ScannedAdd(before: multiset<Record>, x: multiset<Record>, ls: seq<Line>, a: nat, b: nat)
    requires a <= b <= |ls| && Kept(ls, a, b) <= x <= Bag(ls, a, b)
    ensures Scanned(before + x, before, ls, a, b)
  {
  }

  /** A scan of a..m followed by a scan of m..b is a scan of a..b. */
  lemma ScannedJoin(before: multiset<Record>, mid: multiset<Record>, after: multiset<Record>,
                    ls: seq<Line>, a: nat, m: nat, b: nat)
    requires a <= m <= b <= |ls|
    requires Scanned(mid, before, ls, a, m) && Scanned(after, mid, ls, m, b)
    ensures Scanned(after, before, ls, a, b)
  {
    KeptSplit(ls, a, m, b);
    BagSplit(ls, a, m, b);
  }

  /** The same, with the later lines scanned first. */
  lemma ScannedJoinLaterFirst(before: multiset<Record>, mid: multiset<Record>, after: multiset<Record>,
                              ls: seq<Line>, a: nat, m: nat, b: nat)
    requires a <= m <= b <= |ls|
    requires Scanned(mid, before, ls, m, b) && Scanned(after, mid, ls, a, m)
    ensures Scanned(after, before, ls, a, b)
  {
    KeptSplit(ls, a, m, b);
    BagSplit(ls, a, m, b);
  }

  /** A scan of a run with no tiny line adds exactly the run's records. */
  lemma ScannedExact(before: multiset<Record>, after: multiset<Record>, ls: seq<Line>, a: nat, b: nat)
    requires a <= b <= |ls| && Scanned(after, before, ls, a, b)
    requires forall j :: a <= j < b ==> !Tiny(ls[j])
    ensures after == before + Bag(ls, a, b)
  {
    KeptAll(ls, a, b);
  }

  /** The byte offset at which line j starts (or the end, for j == |ls|). */
  function Offset(ls: seq<Line>, j: nat): nat
    requires j <= |ls|
  {
    if j == 0 then 0 else Offset(ls, j - 1) + Width(ls[j - 1])
  }

  /** Line offsets strictly increase: every line has at least five bytes. */
  lemma {:induction false} OffsetMono(ls: seq<Line>, i: nat, j: nat)
    requires i <= j <= |ls|
    ensures Offset(ls, i) + 5 * (j - i) <= Offset(ls, j)
    decreases j - i
  {
    if i < j {
      OffsetMono(ls, i, j - 1);
    }
  }

  /** The number of whole lines from line b on that end within n bytes, plus b. */
  function CompleteFrom(ls: seq<Line>, n: nat, b: nat): (c: nat)
    requires b <= |ls| && Offset(ls, b) <= n
    ensures b <= c <= |ls| && Offset(ls, c) <= n
    ensures c < |ls| ==> n < Offset(ls, c + 1)
    decreases |ls| - b
  {
    if b < |ls| && Offset(ls, b + 1) <= n then CompleteFrom(ls, n, b + 1) else b
  }

  /** The number of complete lines within the first n bytes. */
  function Complete(ls: seq<Line>, n: nat): (b: nat)
    ensures b <= |ls| && Offset(ls, b) <= n
    ensures b < |ls| ==> n < Offset(ls, b + 1)
  {
    CompleteFrom(ls, n, 0)
  }

  /** Every line that ends within n bytes is counted by Complete. */
  lemma CompleteAtLeast(ls: seq<Line>, j: nat, n: nat)
    requires j <= |ls| && Offset(ls, j) <= n
    ensures j <= Complete(ls, n)
  {
    var b := Complete(ls, n);
    if b < j {
      OffsetMono(ls, b + 1, j);
    }
  }

  lemma CompleteMono(ls: seq<Line>, m: nat, n: nat)
    requires m <= n
    ensures Complete(ls, m) <= Complete(ls, n)
  {
    CompleteAtLeast(ls, Complete(ls, m), n);
  }

  /** The prefix that ends at a line boundary holds exactly the lines before it. */
  lemma CompleteAtOffset(ls: seq<Line>, j: nat)
    requires j <= |ls|
    ensures Complete(ls, Offset(ls, j)) == j
  {
    var b := Complete(ls, Offset(ls, j));
    CompleteAtLeast(ls, j, Offset(ls, j));
    if b > j {
      OffsetMono(ls, j, b);
    }
  }

  /** Where line k sits in a window that starts with line a. */
  function At(ls: seq<Line>, a: nat, k: nat): int
    requires a <= |ls| && k <= |ls|
  {
    Offset(ls, k) - Offset(ls, a)
  }

  /**
   * The records the decoder adds for a window that holds the lines a..b:
   * none when those lines take fewer than LenMinReading bytes, otherwise
   * the record of every line, last line first.
   */
  function Decoded(ls: seq<Line>, a: nat, b: nat): seq<Record>
    requires a <= b <= |ls|
  {
    if At(ls, a, b) < LenMinReading then [] else Backward(ls, a, b)
  }

  /** Only a run of no line, or of one tiny line, is that short. */
  lemma ShortWindow(ls: seq<Line>, a: nat, b: nat)
    requires a <= b <= |ls|
    ensures At(ls, a, b) < LenMinReading <==> a == b || (b == a + 1 && Tiny(ls[a]))
  {
    OffsetMono(ls, a, b);
  }

  /**
   * The decoded records are records of the run, and they include the
   * record of every line that is not tiny; with no tiny line they are
   * all of the run's records.
   */
  lemma DecodedBounds(ls: seq<Line>, a: nat, b: nat)
    requires a <= b <= |ls|
    ensures Kept(ls, a, b) <= multiset(Decoded(ls, a, b)) <= Bag(ls, a, b)
    ensures (forall j :: a <= j < b ==> !Tiny(ls[j])) ==> multiset(Decoded(ls, a, b)) == Bag(ls, a, b)
  {
    ShortWindow(ls, a, b);
    BackwardBag(ls, a, b);
    KeptWithin(ls, a, b);
    if a < b && At(ls, a, b) < LenMinReading {
      assert Kept(ls, a, b) == Kept(ls, a + 1, b);
    }
  }

  /** A window that holds only the line `;2.0\n` decodes to no record. */
  lemma TinyWindowDropped()
    ensures var l := Line([], false, Units(2), 0);
      Tiny(l) && Decoded([l], 0, 1) == [] && Bag([l], 0, 1) == multiset{Reading(l)}
  {
  }

  /** The bytes of line l sit in the window d at offset q. */
  predicate LineAt(d: seq<byte>, q: int, l: Line) {
    0 <= q && q + Width(l) <= |d| && d[q..q + Width(l)] == Serialize(l)
  }

  /** The lines a..b sit one after the other in d, line a at offset 0. */
  predicate Placed(d: seq<byte>, lines: seq<Line>, a: nat, b: nat) {
    && a <= b <= |lines|
    && At(lines, a, b) <= |d|
    && forall k {:trigger LineAt(d, At(lines, a, k), lines[k])} :: a <= k < b ==> LineAt(d, At(lines, a, k), lines[k])
  }

  /** No byte of d from offset p on is a newline. */
  predicate NoNewline(d: seq<byte>, p: int) {
    forall j :: p <= j < |d| && 0 <= j ==> d[j] != NL
  }

  /**
   * The window d holds the lines a..b, each at its offset from line a,
   * and no newline follows the last of them.
   */
  predicate Holds(d: seq<byte>, lines: seq<Line>, a: nat, b: nat) {
    ValidLines(lines) && Placed(d, lines, a, b) && NoNewline(d, At(lines, a, b))
  }

  /** A line placed in d stays placed, shifted, in a window of d around it. */
  lemma LineAtShift(d: seq<byte>, lo: nat, hi: nat, q: int, l: Line)
    requires LineAt(d, q, l) && lo <= q && q + Width(l) <= hi <= |d|
    ensures LineAt(d[lo..hi], q - lo, l)
  {
    var w, m := d[lo..hi], Width(l);
    forall i | q - lo <= i < q - lo + m
      ensures w[i] == d[i + lo]
    {
    }
    assert w[q - lo..q - lo + m] == d[q..q + m];
  }

  /** A line placed in d stays placed when bytes are appended to d. */
  lemma LineAtAppend(d: seq<byte>, q: int, l: Line, rest: seq<byte>)
    requires LineAt(d, q, l)
    ensures LineAt(d + rest, q, l)
  {
    assert (d + rest)[q..q + Width(l)] == d[q..q + Width(l)];
  }

  /** A line placed in a window ends in a newline at its last byte. */
  lemma LineLastByte(d: seq<byte>, q: int, l: Line)
    requires ValidLine(l) && LineAt(d, q, l)
    ensures q + Width(l) >= LenMinReading - 1
    ensures d[q + Width(l) - 1] == NL
  {
    var s := Serialize(l);
    SerializeShape(l);
    assert d[q + |s| - 1] == d[q..q + |s|][|s| - 1];
  }

  /** Inside a line placed in a window, only its last byte is a newline. */
  lemma LineInnerByte(d: seq<byte>, q: int, l: Line, j: int)
    requires ValidLine(l) && LineAt(d, q, l) && q <= j < q + Width(l) - 1
    ensures d[j] != NL
  {
    var s := Serialize(l);
    SerializeShape(l);
    assert d[j] == d[q..q + |s|][j - q];
  }

  /** A window holding a line ends in that line's newline. */
  lemma HoldsEnd(d: seq<byte>, lines: seq<Line>, a: nat, b: nat)
    requires Holds(d, lines, a, b) && a < b
    ensures At(lines, a, b) >= LenMinReading - 1
    ensures d[At(lines, a, b) - 1] == NL
  {
    assert LineAt(d, At(lines, a, b - 1), lines[b - 1]);
    LineLastByte(d, At(lines, a, b - 1), lines[b - 1]);
  }

  /** What the decoder relies on about line k - 1 of a window. */
  lemma HoldsStep(d: seq<byte>, lines: seq<Line>, a: nat, b: nat, k: nat)
    requires Holds(d, lines, a, b) && a < k <= b
    ensures var q := At(lines, a, k - 1);
      && ValidLine(lines[k - 1])
      && At(lines, a, k) == q + Width(lines[k - 1])
      && LineAt(d, q, lines[k - 1])
      && (q == 0 <==> k == a + 1)
      && (q > 0 ==> q <= |d| && d[q - 1] == NL)
  {
    OffsetMono(lines, a, k - 1);
    assert LineAt(d, At(lines, a, k - 1), lines[k - 1]);
    if k >= a + 2 {
      PreviousNewline(d, lines, a, b, k);
    }
  }

  lemma PreviousNewline(d: seq<byte>, lines: seq<Line>, a: nat, b: nat, k: nat)
    requires Holds(d, lines, a, b) && a + 2 <= k <= b
    ensures 0 < At(lines, a, k - 1) <= |d| && d[At(lines, a, k - 1) - 1] == NL
  {
    var p, l := At(lines, a, k - 2), lines[k - 2];
    assert LineAt(d, p, l);
    LineLastByte(d, p, l);
  }

  /** The station of line l at offset q: its bytes hold no newline. */
  lemma StationInWindow(d: seq<byte>, q: int, l: Line)
    requires ValidLine(l) && LineAt(d, q, l)
    ensures q + |l.station| < |d| && d[q..q + |l.station|] == l.station
    ensures forall j :: q <= j < q + |l.station| ==> d[j] != NL
  {
    SerializeShape(l);
    var s := Serialize(l);
    assert d[q..q + |l.station|] == d[q..q + |s|][..|l.station|];
  }

  /** The name walk of a line at offset q stops on the byte before q. */
  lemma NameFound(d: seq<byte>, q: int, l: Line, i: int, semicolonIndex: int)
    requires ValidLine(l) && LineAt(d, q, l) && semicolonIndex == q + |l.station|
    requires q > 0 ==> d[q - 1] == NL
    requires -1 <= i < semicolonIndex && (i >= 0 ==> d[i] == NL)
    requires forall j :: i < j < semicolonIndex ==> d[j] != NL
    ensures i == q - 1 && d[q..semicolonIndex] == l.station
  {
    StationInWindow(d, q, l);
  }

  /** A byte of a file past its last complete line within n bytes is not a newline. */
  lemma PieceByte(d: seq<byte>, lines: seq<Line>, n: nat, j: nat)
    requires Holds(d, lines, 0, |lines|) && n <= |d|
    requires Offset(lines, Complete(lines, n)) <= j < n
    ensures d[j] != NL
  {
    var b := Complete(lines, n);
    if b < |lines| {
      assert LineAt(d, At(lines, 0, b), lines[b]);
      LineInnerByte(d, At(lines, 0, b), lines[b], j);
    }
  }

  /** Line k of a file, seen in the window from the start of line a up to n. */
  lemma SubLineAt(d: seq<byte>, lines: seq<Line>, a: nat, n: nat, k: nat)
    requires Placed(d, lines, 0, |lines|)
    requires a <= k < |lines| && Offset(lines, k + 1) <= n <= |d|
    ensures Offset(lines, a) <= n
    ensures LineAt(d[Offset(lines, a)..n], At(lines, a, k), lines[k])
  {
    OffsetMono(lines, a, k);
    assert LineAt(d, At(lines, 0, k), lines[k]);
    LineAtShift(d, Offset(lines, a), n, Offset(lines, k), lines[k]);
  }

  /** Past the last complete line within n bytes, a file has no newline before n. */
  lemma SubTail(d: seq<byte>, lines: seq<Line>, a: nat, n: nat)
    requires Holds(d, lines, 0, |lines|)
    requires a <= Complete(lines, n) && n <= |d|
    ensures Offset(lines, a) <= n
    ensures NoNewline(d[Offset(lines, a)..n], At(lines, a, Complete(lines, n)))
  {
    var lo := Offset(lines, a);
    OffsetMono(lines, a, Complete(lines, n));
    var w := d[lo..n];
    forall j | At(lines, a, Complete(lines, n)) <= j < |w| && 0 <= j
      ensures w[j] != NL
    {
      PieceByte(d, lines, n, lo + j);
    }
  }

  /**
   * The window of a file from the start of line a up to n holds the lines
   * a..Complete(n).
   */
  lemma SubWindow(d: seq<byte>, lines: seq<Line>, a: nat, n: nat)
    requires Holds(d, lines, 0, |lines|)
    requires a <= |lines| && Offset(lines, a) <= n <= |d|
    ensures a <= Complete(lines, n)
    ensures Holds(d[Offset(lines, a)..n], lines, a, Complete(lines, n))
  {
    var b := Complete(lines, n);
    CompleteAtLeast(lines, a, n);
    OffsetMono(lines, a, b);
    var w := d[Offset(lines, a)..n];
    forall k {:trigger LineAt(w, At(lines, a, k), lines[k])} | a <= k < b
      ensures LineAt(w, At(lines, a, k), lines[k])
    {
      OffsetMono(lines, k + 1, b);
      SubLineAt(d, lines, a, n, k);
    }
    SubTail(d, lines, a, n);
  }

  /** A newline of a file closes a line: the next byte starts line j. */
  lemma NewlineBoundary(d: seq<byte>, lines: seq<Line>, p: nat) returns (j: nat)
    requires Holds(d, lines, 0, |lines|)
    requires p < |d| && d[p] == NL
    ensures 1 <= j <= |lines| && Offset(lines, j) == p + 1
  {
    var b := Complete(lines, p);
    assert b < |lines|;
    assert LineAt(d, At(lines, 0, b), lines[b]);
    if p < Offset(lines, b + 1) - 1 {
      LineInnerByte(d, At(lines, 0, b), lines[b], p);
    }
    j := b + 1;
  }

  /** An offset just after a newline of the file starts a line. */
  lemma {:induction false} BoundaryStartsLine(file: seq<byte>, lines: seq<Line>, x: nat)
    requires Holds(file, lines, 0, |lines|) && x <= |file|
    requires x == 0 || file[x - 1] == NL
    ensures Offset(lines, Complete(lines, x)) == x
  {
    var j := 0;
    if x > 0 {
      j := NewlineBoundary(file, lines, x - 1);
    }
    CompleteAtOffset(lines, j);
  }

  /** The bytes of a run of lines. */
  function Flat(ls: seq<Line>): seq<byte> {
    if ls == [] then [] else Flat(ls[..|ls| - 1]) + Serialize(ls[|ls| - 1])
  }

  /** Offsets of a run's leading lines do not depend on what follows them. */
  lemma {:induction false} OffsetPrefix(ls: seq<Line>, l: Line, k: nat)
    requires k <= |ls|
    ensures Offset(ls + [l], k) == Offset(ls, k)
    decreases k
  {
    if k > 0 {
      OffsetPrefix(ls, l, k - 1);
      assert (ls + [l])[k - 1] == ls[k - 1];
    }
  }

  /** One more line placed right after a placed run extends the run. */
  lemma PlacedSnoc(d: seq<byte>, ls: seq<Line>, l: Line)
    requires Placed(d, ls, 0, |ls|) && LineAt(d, Offset(ls, |ls|), l)
    ensures Placed(d, ls + [l], 0, |ls| + 1)
  {
    var ls' := ls + [l];
    OffsetPrefix(ls, l, |ls|);
    forall k {:trigger LineAt(d, At(ls', 0, k), ls'[k])} | 0 <= k < |ls'|
      ensures LineAt(d, At(ls', 0, k), ls'[k])
    {
      OffsetPrefix(ls, l, k);
      if k < |ls| {
        assert LineAt(d, At(ls, 0, k), ls[k]);
      }
    }
  }

  /** A placed run stays placed when bytes are appended to the window. */
  lemma PlacedAppend(d: seq<byte>, ls: seq<Line>, rest: seq<byte>)
    requires Placed(d, ls, 0, |ls|)
    ensures Placed(d + rest, ls, 0, |ls|)
  {
    forall k {:trigger LineAt(d + rest, At(ls, 0, k), ls[k])} | 0 <= k < |ls|
      ensures LineAt(d + rest, At(ls, 0, k), ls[k])
    {
      assert LineAt(d, At(ls, 0, k), ls[k]);
      LineAtAppend(d, At(ls, 0, k), ls[k], rest);
    }
  }

  /** The bytes of a line sit right after what precedes them. */
  lemma SerializedAt(p: seq<byte>, l: Line)
    ensures LineAt(p + Serialize(l), |p|, l)
  {
    var s := Serialize(l);
    assert (p + s)[|p|..|p| + |s|] == s;
  }

  /** The bytes of a run of lines place the run from offset 0. */
  lemma {:induction false} FlatPlaced(lines: seq<Line>)
    ensures |Flat(lines)| == Offset(lines, |lines|)
    ensures Placed(Flat(lines), lines, 0, |lines|)
    decreases |lines|
  {
    if lines != [] {
      var n := |lines| - 1;
      var init, l := lines[..n], lines[n];
      assert lines == init + [l];
      FlatPlaced(init);
      OffsetPrefix(init, l, n);
      PlacedAppend(Flat(init), init, Serialize(l));
      SerializedAt(Flat(init), l);
      PlacedSnoc(Flat(lines), init, l);
    }
  }

  /** Lines followed by bytes with no newline form a file that holds them. */
  lemma WindowHoldsLines(d: seq<byte>, lines: seq<Line>, rest: seq<byte>)
    requires d == Flat(lines) + rest && ValidLines(lines)
    requires forall j :: 0 <= j < |rest| ==> rest[j] != NL
    ensures Holds(d, lines, 0, |lines|)
  {
    FlatPlaced(lines);
    PlacedAppend(Flat(lines), lines, rest);
    forall j | At(lines, 0, |lines|) <= j < |d| && 0 <= j
      ensures d[j] != NL
    {
      assert d[j] == rest[j - |Flat(lines)|];
    }
  }

  /** The bytes after the last line a file holds. */
  function TailOf(d: seq<byte>, lines: seq<Line>): seq<byte>
    requires Offset(lines, |lines|) <= |d|
  {
    d[Offset(lines, |lines|)..]
  }

  /** The bytes of the first m lines are those of the first m - 1, then line m - 1. */
  lemma FlatStep(lines: seq<Line>, m: nat)
    requires 1 <= m <= |lines|
    ensures Flat(lines[..m]) == Flat(lines[..m - 1]) + Serialize(lines[m - 1])
  {
    assert lines[..m][..m - 1] == lines[..m - 1];
  }

  /** A prefix of d ending at q is its prefix ending at p, then d[p..q]. */
  lemma PrefixStep(d: seq<byte>, p: nat, q: nat)
    requires p <= q <= |d|
    ensures d[..q] == d[..p] + d[p..q]
  {
  }

  /** The first Offset(m) bytes of a file that holds lines are the first m lines. */
  lemma {:induction false} HeldPrefix(d: seq<byte>, lines: seq<Line>, m: nat)
    requires Placed(d, lines, 0, |lines|) && m <= |lines|
    ensures Offset(lines, m) <= |d| && d[..Offset(lines, m)] == Flat(lines[..m])
    decreases m
  {
    OffsetMono(lines, m, |lines|);
    if m == 0 {
      assert lines[..0] == [];
    } else {
      HeldPrefix(d, lines, m - 1);
      var p, q := Offset(lines, m - 1), Offset(lines, m);
      assert LineAt(d, At(lines, 0, m - 1), lines[m - 1]);
      PrefixStep(d, p, q);
      FlatStep(lines, m);
    }
  }

  /** A file that holds lines is those lines' bytes followed by its tail. */
  lemma HoldsSplit(d: seq<byte>, lines: seq<Line>)
    requires Holds(d, lines, 0, |lines|)
    ensures d == Flat(lines) + TailOf(d, lines)
    ensures forall j :: 0 <= j < |TailOf(d, lines)| ==> TailOf(d, lines)[j] != NL
  {
    HeldPrefix(d, lines, |lines|);
    assert lines[..|lines|] == lines;
    var n := Offset(lines, |lines|);
    assert d == d[..n] + d[n..];
    var tail := TailOf(d, lines);
    forall j | 0 <= j < |tail|
      ensures tail[j] != NL
    {
      assert tail[j] == d[n + j];
    }
  }
}
