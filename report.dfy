/**
 * The scan of pkg/report/parse.go: the backward record decoder, the
 * recursive range scanner, the newline probe and the partition of the
 * file among workers. The file is an immutable byte sequence and a read
 * of `n` bytes at `off` is the slice `file[off..off + n]`.
 */
module Report {
  import opened Options
  import opened Wire
  import opened Aggregation
  import opened Layout

  /** The largest single read, `2 << 18` bytes. */
  const MaxReadLength: nat := 524288

  /** The size of the newline probe's window, `2 << 8` bytes. */
  const ProbeSize: nat := 512

  /**
   * The longest line (and unterminated tail) the scanner is proved for:
   * half a read, so that every window a split produces holds a line.
   */
  const MaxLine: nat := MaxReadLength / 2

  /**
   * A file of complete lines followed by a tail with no newline, no line
   * and not the tail longer than MaxLine.
   */
  predicate WellFormed(file: seq<byte>, lines: seq<Line>) {
    && Holds(file, lines, 0, |lines|)
    && (forall j :: 0 <= j < |lines| ==> Width(lines[j]) <= MaxLine)
    && |file| - Offset(lines, |lines|) < MaxLine
  }

  /** A run of short lines and a short tail with no newline is a well-formed file. */
  lemma FileOfLines(lines: seq<Line>, tail: seq<byte>)
    requires ValidLines(lines) && forall j :: 0 <= j < |tail| ==> tail[j] != NL
    requires (forall j :: 0 <= j < |lines| ==> Width(lines[j]) <= MaxLine) && |tail| < MaxLine
    ensures WellFormed(Flat(lines) + tail, lines)
    ensures TailOf(Flat(lines) + tail, lines) == tail
  {
    FlatPlaced(lines);
    WindowHoldsLines(Flat(lines) + tail, lines, tail);
  }

  /**
   * The index of the last newline at an index of at least 1, or 0 when
   * there is none: the byte the decoder treats as the window's end.
   */
  function TerminalNewline(d: seq<byte>): (t: nat)
    ensures t == 0 || (t < |d| && d[t] == NL)
    ensures forall j :: t < j < |d| ==> d[j] != NL
  {
    if |d| <= 1 then 0
    else if d[|d| - 1] == NL then |d| - 1
    else TerminalNewline(d[..|d| - 1])
  }

  /** In a window that holds lines, the terminal newline ends the last line. */
  lemma TerminalNewlineOfLines(d: seq<byte>, lines: seq<Line>, a: nat, b: nat)
    requires Holds(d, lines, a, b)
    ensures TerminalNewline(d) == if a == b then 0 else At(lines, a, b) - 1
  {
    if a < b {
      HoldsEnd(d, lines, a, b);
    }
  }

  /**
   * Lines 111-134 of the decoder: read the tenths digit at i, skip the
   * dot, read the ones digit, then an optional tens digit and an optional
   * minus; stop on the semicolon that ends the station name.
   */
  method DecodeTemperature(d: seq<byte>, i: int, ghost q: int, ghost l: Line)
      returns (temperature: int, semicolonIndex: int)
    requires ValidLine(l) && LineAt(d, q, l) && i == q + Width(l) - 2
    ensures temperature == Value(l)
    ensures semicolonIndex == q + |l.station| && d[semicolonIndex] == SEMI
  {
    PlacedLineBytes(d, q, l);
    var j := i;
    // The digit before the newline is the tenths.
    var temp := ClearZeroBits(d[j]);
    j := j - 2; // past the dot
    // The digit before the dot is the ones.
    temp := (temp + ClearZeroBits(d[j]) * 10) % 256;
    j := j - 1;
    if d[j] == SEMI {
      // A one-digit integer part with no sign.
      temperature := temp;
    } else {
      // A tens digit, unless this byte is the sign.
      if d[j] != MINUS {
        temperature := ClearZeroBits(d[j]) * 100 + temp;
        j := j - 1;
      } else {
        temperature := temp;
      }
      // The sign, if any, sits just after the semicolon.
      if d[j] == MINUS {
        temperature := -temperature;
        j := j - 1;
      }
    }
    semicolonIndex := j;
  }

  /**
   * Lines 135-149 of the decoder: walk left from the semicolon to the
   * previous newline (or past the window start), folding each name byte
   * into the station hash.
   */
  method ConsumeName(d: seq<byte>, semicolonIndex: int) returns (i: int, stationHash: bv32)
    requires 0 <= semicolonIndex < |d|
    ensures -1 <= i < semicolonIndex
    ensures i >= 0 ==> d[i] == NL
    ensures forall j :: i < j < semicolonIndex ==> d[j] != NL
    ensures stationHash == NameHash(d[i + 1..semicolonIndex])
  {
    i := semicolonIndex - 1;
    stationHash := FnvOffsetBasis;
    while i >= 0 && d[i] != NL
      invariant -1 <= i < semicolonIndex
      invariant forall j :: i < j < semicolonIndex ==> d[j] != NL
      invariant stationHash == NameHash(d[i + 1..semicolonIndex])
      decreases i
    {
      assert d[i..semicolonIndex][1..] == d[i + 1..semicolonIndex];
      // One FNV-1a round on the name byte.
      stationHash := FnvStep(stationHash, d[i]);
      i := i - 1;
    }
  }

  /**
   * One pass of the decoder's loop (lines 108-150): the record that ends
   * with the newline before index i + 2, and the index of the newline
   * before it (-1 when the record starts the window).
   */
  method DecodeRecord(d: seq<byte>, i: int, ghost lines: seq<Line>, ghost a: nat, ghost b: nat, ghost k: nat)
      returns (parsed: Record, next: int)
    requires Holds(d, lines, a, b) && a < k <= b && i + 2 == At(lines, a, k)
    ensures parsed == Reading(lines[k - 1])
    ensures next == At(lines, a, k - 1) - 1
    ensures next < 0 <==> k == a + 1
  {
    ghost var l := lines[k - 1];
    ghost var q := At(lines, a, k - 1);
    HoldsStep(d, lines, a, b, k);
    var temperature, semicolonIndex := DecodeTemperature(d, i, q, l);
    var stationHash;
    next, stationHash := ConsumeName(d, semicolonIndex);
    NameFound(d, q, l, next, semicolonIndex);
    if next < 0 {
      parsed := Record(d[..semicolonIndex], stationHash, temperature);
    } else {
      parsed := Record(d[next + 1..semicolonIndex], stationHash, temperature);
    }
  }

  /**
   * The first loop of `parseBytes` (lines 92-100): scan left for the
   * terminal newline, stopping at index 1; i ends just before it.
   */
  method SkipTail(d: seq<byte>) returns (terminalNL: nat, i: int)
    ensures terminalNL == TerminalNewline(d)
    ensures terminalNL == 0 ==> i == if |d| == 0 then -1 else 0
    ensures terminalNL > 0 ==> i == terminalNL - 1
  {
    i := |d| - 1;
    terminalNL := 0;
    // The bytes after the last newline belong to no complete line.
    while i > 0
      invariant -1 <= i < |d|
      invariant |d| > 0 ==> i >= 0
      invariant TerminalNewline(d[..i + 1]) == TerminalNewline(d)
    {
      if d[i] == NL {
        terminalNL := i;
        i := i - 1;
        break;
      }
      assert d[..i + 1][..i] == d[..i];
      i := i - 1;
    }
  }

  lemma ConcatAssoc<T>(x: seq<T>, y: seq<T>, z: seq<T>)
    ensures (x + y) + z == x + (y + z)
  {
  }

  /**
   * The record loop of `parseBytes` (lines 107-152): from the tenths digit
   * of the last record at i, decode every record of the window right to
   * left and add it to the table.
   */
  method DecodeRecords(d: seq<byte>, i: int, readings: Table, ghost lines: seq<Line>, ghost a: nat, ghost b: nat)
    requires Holds(d, lines, a, b) && a < b && i + 2 == At(lines, a, b)
    modifies readings
    ensures readings.records == old(readings.records) + Backward(lines, a, b)
  {
    var j := i;
    ghost var k := b;
    ghost var start := readings.records;
    while true
      invariant a < k <= b
      invariant j + 2 == At(lines, a, k)
      invariant readings.records == start + Backward(lines, k, b)
      decreases j
    {
      var parsed;
      parsed, j := DecodeRecord(d, j, lines, a, b, k);
      readings.Add(parsed);
      ConcatAssoc(start, Backward(lines, k, b), [parsed]);
      assert Backward(lines, k - 1, b) == Backward(lines, k, b) + [parsed];
      if j < 0 {
        return;
      }
      j := j - 1;
      k := k - 1;
    }
  }

  /**
   * `parseBytes`: decode, from right to left, every complete record of the
   * window and add it to the table; return the index of the terminal
   * newline. Bytes after that newline are ignored. A window whose terminal
   * newline comes before `LenMinReading - 1` adds nothing, whatever its
   * bytes; so a window that holds only a tiny line is skipped.
   */
  method ParseBytes(d: seq<byte>, readings: Table, ghost lines: seq<Line>, ghost a: nat, ghost b: nat)
      returns (terminalNL: nat)
    requires Holds(d, lines, a, b) || TerminalNewline(d) < LenMinReading - 1
    modifies readings
    ensures terminalNL == TerminalNewline(d)
    ensures terminalNL < LenMinReading - 1 ==> readings.records == old(readings.records)
    ensures Holds(d, lines, a, b) ==> terminalNL == if a == b then 0 else At(lines, a, b) - 1
    ensures Holds(d, lines, a, b) ==> readings.records == old(readings.records) + Decoded(lines, a, b)
  {
    var i;
    terminalNL, i := SkipTail(d);
    if Holds(d, lines, a, b) {
      TerminalNewlineOfLines(d, lines, a, b);
      if a < b {
        HoldsEnd(d, lines, a, b);
      }
    }
    if i == 0 {
      return;
    }
    if LenMinReading - i > 2 {
      return;
    }
    DecodeRecords(d, i, readings, lines, a, b);
  }

  /**
   * The number of bytes after the last `b` of a window, or None when the
   * window holds no `b`.
   */
  function BytesAfter(w: seq<byte>, b: byte): (r: Option<nat>)
    ensures r.Some? ==> r.value < |w| && w[|w| - 1 - r.value] == b
    ensures r.Some? ==> forall j :: |w| - 1 - r.value < j < |w| ==> w[j] != b
    ensures r.None? <==> forall j :: 0 <= j < |w| ==> w[j] != b
  {
    if w == [] then None
    else if w[|w| - 1] == b then Some(0)
    else
      match BytesAfter(w[..|w| - 1], b)
      case None => None
      case Some(c) => Some(c + 1)
  }

  /** The count is fixed by the last `b` of the window. */
  lemma {:induction false} BytesAfterLast(w: seq<byte>, b: byte, i: nat)
    requires i < |w| && w[i] == b
    requires forall j :: i < j < |w| ==> w[j] != b
    ensures BytesAfter(w, b) == Some(|w| - 1 - i)
    decreases |w|
  {
    if i < |w| - 1 {
      var w' := w[..|w| - 1];
      BytesAfterLast(w', b, i);
    }
  }

  /** The first byte of the probe window that ends at `end`. */
  function ProbeStart(end: nat): nat {
    if end < ProbeSize then 0 else end - ProbeSize
  }

  /**
   * The newline probe of the file at `end`, as a value: the count of the
   * bytes after the last `b` of the probe window, or None when the window
   * passes the end of the file or holds no `b`.
   */
  function Probe(file: seq<byte>, end: nat, b: byte): (r: Option<nat>)
    ensures r.Some? ==> var p := end - 1 - r.value;
      && ProbeStart(end) <= p < end <= |file| && file[p] == b
      && forall j :: p < j < end ==> file[j] != b
    ensures r.None? <==> end > |file| || forall j :: ProbeStart(end) <= j < end ==> file[j] != b
  {
    if end > |file| then None
    else
      ProbeFacts(file, end, b);
      BytesAfter(file[ProbeStart(end)..end], b)
  }

  lemma ProbeFacts(file: seq<byte>, end: nat, b: byte)
    requires end <= |file|
    ensures var w := file[ProbeStart(end)..end]; var r := BytesAfter(w, b);
      && (r.Some? ==> var p := end - 1 - r.value;
           && ProbeStart(end) <= p < end && file[p] == b
           && forall j :: p < j < end ==> file[j] != b)
      && (r.None? <==> forall j :: ProbeStart(end) <= j < end ==> file[j] != b)
  {
    var w := file[ProbeStart(end)..end];
    assert forall j :: ProbeStart(end) <= j < end ==> file[j] == w[j - ProbeStart(end)];
    var r := BytesAfter(w, b);
    if r.Some? {
      var p := end - 1 - r.value;
      assert file[p] == w[|w| - 1 - r.value];
    } else {
      forall j | ProbeStart(end) <= j < end
        ensures file[j] != b
      {
        assert file[j] == w[j - ProbeStart(end)];
      }
    }
  }

  /**
   * `bytesAfterLastByte`: read the (at most) 512 bytes before `end` and
   * count the bytes after the last `b` among them. None stands for the
   * panics: a read past the end of the file, or no `b` in the window.
   */
  method BytesAfterLastByte(file: seq<byte>, end: nat, b: byte) returns (count: Option<nat>)
    ensures count == Probe(file, end, b)
  {
    var bufSize := ProbeSize;
    if end < bufSize {
      bufSize := end;
    }
    if end > |file| {
      // ReadAt fails: the read would pass the end of the file.
      return None;
    }
    var buf := file[end - bufSize..end];
    assert end - bufSize == ProbeStart(end);
    var i := |buf| - 1;
    var n: nat := 0;
    while i >= 0
      invariant -1 <= i < |buf| && n == |buf| - 1 - i
      invariant forall j :: i < j < |buf| ==> buf[j] != b
    {
      if buf[i] == b {
        BytesAfterLast(buf, b, i);
        return Some(n);
      }
      n := n + 1;
      i := i - 1;
    }
    // No newline in the window: the source panics here.
    return None;
  }

  /**
   * Where `parseFileLeftRight` splits a range longer than one read: at the
   * middle, rounded down to a whole number of reads from `left` once the
   * half is itself longer than a read.
   */
  function SplitPoint(left: nat, right: nat): (s: nat)
    requires right - left > MaxReadLength
    ensures left < s < right
    ensures s - left <= (right - left) / 2
    ensures (right - left) / 2 > MaxReadLength ==>
      (s - left) % MaxReadLength == 0 && (right - left) / 2 - (s - left) < MaxReadLength
    ensures (right - left) / 2 <= MaxReadLength ==> s - left == (right - left) / 2
    ensures s - left >= MaxLine && right - s > MaxLine
  {
    var half := (right - left) / 2;
    if half > MaxReadLength then left + half - half % MaxReadLength else left + half
  }

  /** A range of at least MaxLine bytes from a line boundary holds a complete line. */
  lemma LongWindowHoldsLine(file: seq<byte>, lines: seq<Line>, a: nat, right: nat)
    requires WellFormed(file, lines)
    requires a <= |lines| && Offset(lines, a) + MaxLine <= right <= |file|
    ensures Complete(lines, right) > a
  {
    if a < |lines| {
      CompleteAtLeast(lines, a + 1, right);
    }
  }

  /**
   * The leaf of `parseFileLeftRight` (lines 73-80): one read of the whole
   * range into the buffer, decoded by `parseBytes`.
   */
  method ParseRead(file: seq<byte>, left: nat, right: nat, readings: Table,
                   ghost lines: seq<Line>, ghost a: nat)
      returns (r: int)
    requires Holds(file, lines, 0, |lines|)
    requires a <= |lines| && left == Offset(lines, a) && left <= right <= |file|
    modifies readings
    ensures a <= Complete(lines, right)
    ensures var b := Complete(lines, right);
      && readings.records == old(readings.records) + Decoded(lines, a, b)
      && Scanned(multiset(readings.records), old(multiset(readings.records)), lines, a, b)
      && (b > a ==> r + 1 == Offset(lines, b))
      && (b == a ==> r == left)
  {
    ghost var b := Complete(lines, right);
    SubWindow(file, lines, a, right);
    var buf := file[left..right];
    var terminalNL := ParseBytes(buf, readings, lines, a, b);
    DecodedBounds(lines, a, b);
    ScannedAdd(old(multiset(readings.records)), multiset(Decoded(lines, a, b)), lines, a, b);
    r := left + terminalNL;
  }

  /**
   * `parseFileLeftRight`: scan `file[left..right]`, where `left` starts
   * line a, reading at most MaxReadLength bytes at a time; every line that
   * ends inside the range is added exactly once; the result is the index
   * of the newline that ends the last of them.
   */
  method ParseFileLeftRight(file: seq<byte>, left: nat, right: nat, readings: Table,
                            ghost lines: seq<Line>, ghost a: nat)
      returns (r: int)
    requires WellFormed(file, lines)
    requires a <= |lines| && left == Offset(lines, a) && left <= right <= |file|
    modifies readings
    ensures a <= Complete(lines, right)
    ensures var b := Complete(lines, right);
      && Scanned(multiset(readings.records), old(multiset(readings.records)), lines, a, b)
      && (b > a ==> r + 1 == Offset(lines, b))
      && (b == a ==> r == left)
    ensures right - left >= MaxLine ==> Complete(lines, right) > a
    decreases right - left
  {
    var size := right - left;
    CompleteAtLeast(lines, a, right);
    if right - left >= MaxLine {
      LongWindowHoldsLine(file, lines, a, right);
    }
    if size <= MaxReadLength {
      r := ParseRead(file, left, right, readings, lines, a);
      return;
    }
    var splitAt := SplitPoint(left, right);
    ghost var b1 := Complete(lines, splitAt);
    LongWindowHoldsLine(file, lines, a, splitAt);
    var r1 := ParseFileLeftRight(file, left, splitAt, readings, lines, a);
    ghost var mid := multiset(readings.records);
    ghost var b := Complete(lines, right);
    OffsetMono(lines, a, b1);
    CompleteMono(lines, splitAt, right);
    r := ParseFileLeftRight(file, r1 + 1, right, readings, lines, b1);
    ScannedJoin(old(multiset(readings.records)), mid, multiset(readings.records), lines, a, b1, b);
  }

  /**
   * `parseComplete`: one scan over the whole file adds every line at most
   * once and every line that is not tiny exactly once; a file with no tiny
   * line gets all of its records.
   */
  method ParseComplete(file: seq<byte>, readings: Table, ghost lines: seq<Line>)
    requires WellFormed(file, lines)
    modifies readings
    ensures Scanned(multiset(readings.records), old(multiset(readings.records)), lines, 0, |lines|)
    ensures (forall j :: 0 <= j < |lines| ==> !Tiny(lines[j])) ==>
      multiset(readings.records) == old(multiset(readings.records)) + Bag(lines, 0, |lines|)
  {
    CompleteAtLeast(lines, |lines|, |file|);
    var _ := ParseFileLeftRight(file, 0, |file|, readings, lines, 0);
    if forall j :: 0 <= j < |lines| ==> !Tiny(lines[j]) {
      ScannedExact(old(multiset(readings.records)), multiset(readings.records), lines, 0, |lines|);
    }
  }

  /**
   * The start of the next worker's range: `offset + chunk` pulled back to
   * just after the last newline the probe finds before it.
   */
  function NextOffset(file: seq<byte>, offset: nat, chunk: nat): (r: Option<nat>)
    ensures r.Some? ==>
      && 0 < r.value <= offset + chunk <= |file|
      && offset + chunk < r.value + ProbeSize
      && file[r.value - 1] == NL
      && forall j :: r.value <= j < offset + chunk ==> file[j] != NL
    ensures r.Some? && (offset == 0 || (offset <= |file| && file[offset - 1] == NL)) ==> offset <= r.value
    ensures r.None? <==>
      offset + chunk > |file| || forall j :: ProbeStart(offset + chunk) <= j < offset + chunk ==> file[j] != NL
  {
    match Probe(file, offset + chunk, NL)
    case None => None
    case Some(clip) => Some(offset + chunk - clip)
  }

  /**
   * The worker boundaries `parseFile` computes: the offset of each
   * worker's range, starting at 0, each one the probe from the one before.
   */
  predicate Chained(file: seq<byte>, chunk: nat, bs: seq<nat>) {
    && |bs| >= 1 && bs[0] == 0
    && forall k :: 0 <= k < |bs| - 1 ==> NextOffset(file, bs[k], chunk) == Some(bs[k + 1])
  }

  /** One more successful probe extends the boundaries. */
  lemma ChainedSnoc(file: seq<byte>, chunk: nat, bs: seq<nat>, o: nat)
    requires Chained(file, chunk, bs)
    requires NextOffset(file, bs[|bs| - 1], chunk) == Some(o)
    ensures Chained(file, chunk, bs + [o])
  {
    var bs' := bs + [o];
    forall k | 0 <= k < |bs'| - 1
      ensures NextOffset(file, bs'[k], chunk) == Some(bs'[k + 1])
    {
      if k < |bs| - 1 {
        assert bs'[k] == bs[k] && bs'[k + 1] == bs[k + 1];
      }
    }
  }

  /** The probes are deterministic: two runs of the loop agree where both got to. */
  lemma {:induction false} ChainedUnique(file: seq<byte>, chunk: nat, bs: seq<nat>, cs: seq<nat>, k: nat)
    requires Chained(file, chunk, bs) && Chained(file, chunk, cs)
    requires k < |bs| && k < |cs|
    ensures bs[k] == cs[k]
    decreases k
  {
    if k > 0 {
      ChainedUnique(file, chunk, bs, cs, k - 1);
      assert NextOffset(file, bs[k - 1], chunk) == Some(bs[k]);
      assert NextOffset(file, cs[k - 1], chunk) == Some(cs[k]);
    }
  }

  lemma MulLeft(i: nat, j: nat, c: nat)
    requires i <= j
    ensures i * c <= j * c
  {
  }

  /** k workers of `size / concurrency` bytes fit in the file. */
  lemma ChunksFit(size: nat, concurrency: nat, k: nat)
    requires 1 <= concurrency && k <= concurrency
    ensures k * (size / concurrency) <= size
  {
    MulLeft(k, concurrency, size / concurrency);
  }

  /**
   * Worker offsets that partition the file: contiguous ranges from 0,
   * each ending just after a newline, at most `chunk` bytes long and
   * clipped by less than the probe's window.
   */
  predicate Partitioned(file: seq<byte>, chunk: nat, bs: seq<nat>) {
    && |bs| >= 1 && bs[0] == 0
    && Contiguous(chunk, bs)
    && AtLineStarts(file, bs)
  }

  /** Each range starts where the previous one ends, clipped by less than a probe. */
  predicate Contiguous(chunk: nat, bs: seq<nat>) {
    forall k :: 0 <= k < |bs| - 1 ==> Link(chunk, bs[k], bs[k + 1])
  }

  /** A range from x to y: y is x + chunk pulled back by less than a probe. */
  predicate Link(chunk: nat, x: nat, y: nat) {
    x <= y <= x + chunk < y + ProbeSize
  }

  /** Every range but the first starts just after a newline of the file. */
  predicate AtLineStarts(file: seq<byte>, bs: seq<nat>) {
    forall k :: 1 <= k < |bs| ==> 0 < bs[k] <= |file| && file[bs[k] - 1] == NL
  }

  /** Every boundary the probes find is just after a newline. */
  lemma ChainedAtLineStarts(file: seq<byte>, chunk: nat, bs: seq<nat>)
    requires Chained(file, chunk, bs)
    ensures AtLineStarts(file, bs)
  {
    forall k | 1 <= k < |bs|
      ensures 0 < bs[k] <= |file| && file[bs[k] - 1] == NL
    {
      assert NextOffset(file, bs[k - 1], chunk) == Some(bs[k]);
    }
  }

  /** The boundaries the probes find partition the file. */
  lemma Partition(file: seq<byte>, chunk: nat, bs: seq<nat>)
    requires Chained(file, chunk, bs)
    ensures Partitioned(file, chunk, bs)
  {
    ChainedAtLineStarts(file, chunk, bs);
    forall k | 0 <= k < |bs| - 1
      ensures Link(chunk, bs[k], bs[k + 1])
    {
      assert NextOffset(file, bs[k], chunk) == Some(bs[k + 1]);
    }
  }

  /** The first k ranges end within the first k chunks of the file. */
  lemma {:induction false} BoundariesWithin(file: seq<byte>, chunk: nat, bs: seq<nat>, k: nat)
    requires Chained(file, chunk, bs) && k < |bs|
    ensures bs[k] <= k * chunk
    decreases k
  {
    if k > 0 {
      BoundariesWithin(file, chunk, bs, k - 1);
      assert NextOffset(file, bs[k - 1], chunk) == Some(bs[k]);
      assert (k - 1) * chunk + chunk == k * chunk;
    }
  }

  /**
   * With `size / concurrency` bytes a chunk, the probe of each of the
   * `concurrency` workers ends inside the file, so a probe can only fail
   * for want of a newline in its window.
   */
  lemma ProbesInFile(file: seq<byte>, concurrency: nat, bs: seq<nat>, k: nat)
    requires concurrency >= 1 && Chained(file, |file| / concurrency, bs)
    requires k < |bs| && k < concurrency
    ensures bs[k] + |file| / concurrency <= |file|
  {
    var c := |file| / concurrency;
    BoundariesWithin(file, c, bs, k);
    ChunksFit(|file|, concurrency, k + 1);
    assert k * c + c == (k + 1) * c;
  }

  /** The whole file holds all of its lines. */
  lemma CompleteFile(file: seq<byte>, lines: seq<Line>)
    requires Holds(file, lines, 0, |lines|)
    ensures Complete(lines, |file|) == |lines|
  {
    CompleteAtLeast(lines, |lines|, |file|);
  }

  /**
   * A probe that finds a newline before `offset + chunk` gives the next
   * worker's offset, at or after `offset` when `offset` starts a line.
   */
  lemma ClipIsNext(file: seq<byte>, offset: nat, chunk: nat, clip: Option<nat>)
    requires offset == 0 || (offset <= |file| && file[offset - 1] == NL)
    requires clip == Probe(file, offset + chunk, NL) && clip.Some?
    ensures var o := offset + chunk - clip.value;
      && offset <= o <= |file|
      && NextOffset(file, offset, chunk) == Some(o)
  {
  }

  /** The start of the next worker's range starts a line. */
  lemma NextOffsetStartsLine(file: seq<byte>, lines: seq<Line>, offset: nat, chunk: nat)
    requires Holds(file, lines, 0, |lines|) && NextOffset(file, offset, chunk).Some?
    ensures var o := NextOffset(file, offset, chunk).value;
      Offset(lines, Complete(lines, o)) == o
  {
    BoundaryStartsLine(file, lines, NextOffset(file, offset, chunk).value);
  }

  /**
   * One pass of the worker loop of `parseFile` (lines 28-38): probe for
   * the newline before `offset + chunk`, then scan the range up to just
   * after it into a fresh table. The goroutine is run to completion here.
   */
  method SpawnWorker(file: seq<byte>, offset: nat, chunk: nat,
                     ghost lines: seq<Line>, ghost a: nat)
      returns (next: Option<nat>, t: Table)
    requires WellFormed(file, lines)
    requires a <= |lines| && offset == Offset(lines, a)
    requires offset == 0 || (offset <= |file| && file[offset - 1] == NL)
    ensures next == NextOffset(file, offset, chunk)
    ensures next.Some? ==> var b := Complete(lines, next.value);
      && fresh(t) && a <= b && Offset(lines, b) == next.value
      && Scanned(multiset(t.records), multiset{}, lines, a, b)
  {
    var clip := BytesAfterLastByte(file, offset + chunk, NL);
    t := new Table();
    if clip.None? {
      return None, t;
    }
    ClipIsNext(file, offset, chunk, clip);
    NextOffsetStartsLine(file, lines, offset, chunk);
    next := Some(offset + chunk - clip.value);
    var _ := ParseFileLeftRight(file, offset, next.value, t, lines, a);
  }

  /** Line indices that never decrease. */
  predicate Ascending(idx: seq<nat>) {
    forall i, j :: 0 <= i <= j < |idx| ==> idx[i] <= idx[j]
  }

  lemma AscendingSnoc(idx: seq<nat>, x: nat)
    requires Ascending(idx) && |idx| >= 1 && idx[|idx| - 1] <= x
    ensures Ascending(idx + [x])
  {
  }

  /** Table j holds what a scan of the lines idx[j]..idx[j + 1] adds to an empty table. */
  ghost predicate Filled(tables: seq<Table>, lines: seq<Line>, idx: seq<nat>)
    requires |idx| == |tables| + 1 && Ascending(idx) && idx[|tables|] <= |lines|
    reads set t | t in tables
  {
    forall j :: 0 <= j < |tables| ==> Scanned(multiset(tables[j].records), multiset{}, lines, idx[j], idx[j + 1])
  }

  lemma FilledSnoc(tables: seq<Table>, lines: seq<Line>, idx: seq<nat>, t: Table, x: nat)
    requires |idx| == |tables| + 1 && Ascending(idx) && idx[|tables|] <= x <= |lines|
    requires Filled(tables, lines, idx)
    requires Scanned(multiset(t.records), multiset{}, lines, idx[|tables|], x)
    ensures Ascending(idx + [x])
    ensures Filled(tables + [t], lines, idx + [x])
  {
    AscendingSnoc(idx, x);
    var tables', idx' := tables + [t], idx + [x];
    forall j | 0 <= j < |tables'|
      ensures Scanned(multiset(tables'[j].records), multiset{}, lines, idx'[j], idx'[j + 1])
    {
      if j < |tables| {
        assert tables'[j] == tables[j] && idx'[j] == idx[j] && idx'[j + 1] == idx[j + 1];
      }
    }
  }

  /**
   * The state of the worker loop after |tables| passes: the boundaries
   * found so far, the line that starts at each of them, and table j
   * holding the scan of range j; the last boundary is 0 or follows a newline.
   */
  ghost predicate Spawned(file: seq<byte>, chunk: nat, lines: seq<Line>,
                          bs: seq<nat>, idx: seq<nat>, tables: seq<Table>)
    reads set t | t in tables
  {
    && Chained(file, chunk, bs)
    && |bs| == |idx| == |tables| + 1 && idx[0] == 0
    && var last := |tables|;
    && bs[last] <= |file| && (bs[last] == 0 || file[bs[last] - 1] == NL)
    && (forall j :: 0 <= j < |idx| ==> idx[j] <= |lines| && Offset(lines, idx[j]) == bs[j])
    && Ascending(idx) && Filled(tables, lines, idx)
  }

  /** One more worker keeps the loop's state. */
  lemma SpawnedSnoc(file: seq<byte>, chunk: nat, lines: seq<Line>,
                    bs: seq<nat>, idx: seq<nat>, tables: seq<Table>, t: Table, o: nat)
    requires Spawned(file, chunk, lines, bs, idx, tables)
    requires NextOffset(file, bs[|tables|], chunk) == Some(o)
    requires idx[|tables|] <= Complete(lines, o) && Offset(lines, Complete(lines, o)) == o
    requires Scanned(multiset(t.records), multiset{}, lines, idx[|tables|], Complete(lines, o))
    ensures Spawned(file, chunk, lines, bs + [o], idx + [Complete(lines, o)], tables + [t])
  {
    var c := Complete(lines, o);
    ChainedSnoc(file, chunk, bs, o);
    FilledSnoc(tables, lines, idx, t, c);
    assert (bs + [o])[|tables| + 1] == o && (idx + [c])[|tables| + 1] == c && (idx + [c])[0] == 0;
  }

  /**
   * The worker loop of `parseFile` (lines 27-39), each goroutine run to
   * completion when it is started: `concurrency` ranges, each ending just
   * after a newline and scanned into a table of its own. None when a
   * newline probe fails; otherwise the tables and the offset where the
   * last range ends.
   */
  method SpawnWorkers(file: seq<byte>, chunkSize: nat, concurrency: nat, ghost lines: seq<Line>)
      returns (recordSets: Option<seq<Table>>, offset: nat, ghost bs: seq<nat>, ghost idx: seq<nat>)
    requires WellFormed(file, lines)
    ensures Chained(file, chunkSize, bs) && |bs| <= concurrency + 1
    ensures recordSets.Some? <==> |bs| == concurrency + 1
    ensures recordSets.None? ==> NextOffset(file, bs[|bs| - 1], chunkSize).None?
    ensures recordSets.Some? ==>
      && |recordSets.value| == concurrency && |idx| == concurrency + 1
      && idx[0] == 0 && offset == bs[concurrency] && offset <= |file|
      && (forall j :: 0 <= j <= concurrency ==> idx[j] <= |lines| && Offset(lines, idx[j]) == bs[j])
      && Ascending(idx) && Filled(recordSets.value, lines, idx)
  {
    offset := 0;
    var tables: seq<Table> := [];
    bs := [0];
    idx := [0];
    var k := 0;
    while k < concurrency
      invariant 0 <= k <= concurrency && |tables| == k
      invariant Spawned(file, chunkSize, lines, bs, idx, tables)
      invariant offset == bs[k]
    {
      var next, t := SpawnWorker(file, offset, chunkSize, lines, idx[k]);
      if next.None? {
        // The probe found no newline: the source panics here.
        return None, offset, bs, idx;
      }
      SpawnedSnoc(file, chunkSize, lines, bs, idx, tables, t, next.value);
      tables := tables + [t];
      bs := bs + [next.value];
      idx := idx + [Complete(lines, next.value)];
      offset := next.value;
      k := k + 1;
    }
    recordSets := Some(tables);
  }

  /** Adding the scan of table j to the scans of the tables before it. */
  lemma MergeStep(before: multiset<Record>, x: multiset<Record>, start: multiset<Record>,
                  lines: seq<Line>, a: nat, m: nat, b: nat)
    requires a <= m <= b <= |lines|
    requires Scanned(before, start, lines, a, m) && Scanned(x, multiset{}, lines, m, b)
    ensures Scanned(before + x, start, lines, a, b)
  {
    assert multiset{} + Kept(lines, m, b) == Kept(lines, m, b);
    assert multiset{} + Bag(lines, m, b) == Bag(lines, m, b);
    ScannedAdd(before, x, lines, m, b);
    ScannedJoin(start, before, before + x, lines, a, m, b);
  }

  /** The merge loop of `parseFile` (lines 43-46): every worker's records join the result. */
  method MergeAll(readings: Table, recordSets: seq<Table>, ghost lines: seq<Line>, ghost idx: seq<nat>)
    requires |idx| == |recordSets| + 1 && idx[|recordSets|] <= |lines|
    requires Ascending(idx) && Filled(recordSets, lines, idx)
    requires forall i :: 0 <= i < |recordSets| ==> recordSets[i] != readings
    modifies readings
    ensures Scanned(multiset(readings.records), old(multiset(readings.records)), lines, idx[0], idx[|recordSets|])
  {
    var j := 0;
    while j < |recordSets|
      invariant 0 <= j <= |recordSets|
      invariant Scanned(multiset(readings.records), old(multiset(readings.records)), lines, idx[0], idx[j])
    {
      ghost var before := multiset(readings.records);
      readings.Merge(recordSets[j]);
      MergeStep(before, multiset(recordSets[j].records), old(multiset(readings.records)), lines, idx[0], idx[j], idx[j + 1]);
      j := j + 1;
    }
  }

  /**
   * `parseFile`, with the workers run one after the other: split the file
   * into `concurrency` ranges at newlines, scan each into a table of its
   * own, scan what is left after the last range into the result, then
   * merge the workers' tables into it. None when a newline probe fails.
   */
  method ParseFile(file: seq<byte>, concurrency: nat, ghost lines: seq<Line>)
      returns (result: Option<Table>, ghost bs: seq<nat>)
    requires WellFormed(file, lines)
    requires concurrency >= 1
    ensures Chained(file, |file| / concurrency, bs) && |bs| <= concurrency + 1
    ensures result.Some? <==> |bs| == concurrency + 1
    ensures result.None? ==> var end := bs[|bs| - 1] + |file| / concurrency;
      end <= |file| && forall j :: ProbeStart(end) <= j < end ==> file[j] != NL
    ensures result.Some? ==> Scanned(multiset(result.value.records), multiset{}, lines, 0, |lines|)
    ensures result.Some? && (forall j :: 0 <= j < |lines| ==> !Tiny(lines[j])) ==>
      multiset(result.value.records) == Bag(lines, 0, |lines|)
  {
    var size := |file|;
    var chunkSize := size / concurrency;
    var recordSets, offset;
    ghost var idx;
    recordSets, offset, bs, idx := SpawnWorkers(file, chunkSize, concurrency, lines);
    if recordSets.None? {
      ProbesInFile(file, concurrency, bs, |bs| - 1);
      return None, bs;
    }
    var readings := new Table();
    CompleteFile(file, lines);
    var _ := ParseFileLeftRight(file, offset, size, readings, lines, idx[concurrency]);
    ghost var tail := multiset(readings.records);
    MergeAll(readings, recordSets.value, lines, idx);
    ScannedJoinLaterFirst(multiset{}, tail, multiset(readings.records), lines, 0, idx[concurrency], |lines|);
    if forall j :: 0 <= j < |lines| ==> !Tiny(lines[j]) {
      ScannedExact(multiset{}, multiset(readings.records), lines, 0, |lines|);
      assert multiset{} + Bag(lines, 0, |lines|) == Bag(lines, 0, |lines|);
    }
    return Some(readings), bs;
  }
}
