# obrc-go scan core in Dafny

This project models `pkg/report/parse.go` of obrc-go, a solution to the
"one billion row challenge". The program reads a measurements file of
lines `<station>;[-]D[D].D\n` and aggregates a value, in tenths, per
station. The model covers four parts of that file:

- `parseBytes`, the backward record decoder;
- `parseFileLeftRight` and `parseComplete`, the recursive range scanner;
- `bytesAfterLastByte`, the newline probe;
- `parseFile`, which splits the file among workers and merges their tables.

The file is an immutable `seq<byte>`. A read of `n` bytes at `off` is the
slice `file[off..off + n]`. The aggregation table (`hashMap`) is a class
whose one field is the log of the records added to it. A well-formed file
is described by the ghost sequence of its lines:

- `Layout.Holds(file, lines, 0, |lines|)` says the file is those lines'
  bytes, followed by a tail with no newline.
- `Report.WellFormed` adds that no line is longer than `MaxLine`, which is
  half of `maxReadLength`, and that the tail is shorter than `MaxLine`.

The scanners are proved against this description. A complete line yields
at most one record, `Layout.Reading(line)`. The record holds the station
bytes, the FNV-1a hash of those bytes read backwards, and the value in
tenths.

A station name may be empty. The shortest line is then `;D.D\n`, five
bytes, which `Wire.Tiny` names. `parseBytes` returns early when its
window's terminal newline comes before index 5 (`lenMinReading` is the
length of `A;0.0\n`). A window that holds only a tiny line therefore adds
nothing. Otherwise it adds the records of its lines, last line first
(`Layout.Decoded`, `Layout.Backward`).

So every scan of the file adds the multiset `Layout.Bag(lines, 0, |lines|)`
with some tiny lines left out. Every line that is not tiny is added
exactly once, and no line twice (`Layout.Scanned`, between `Layout.Kept`
and `Layout.Bag`). A file with no tiny line gets exactly
`Layout.Bag(lines, 0, |lines|)`, whatever the split points and the number
of workers. Which tiny lines are lost depends on where the ranges fall.
For instance, in `A;1.0\nB;1.0\n;2.0\n` with two workers, the tail range
after the workers holds only `;2.0\n`.

Modules:

- `Options`: the `Option` type.
- `Wire`: bytes, the wire format of a line, its value and the station hash.
- `Aggregation`: the table.
- `Layout`: line offsets, windows that hold runs of lines, and the records of a run.
- `Report`: the operations of `parse.go`.

Three further details of the code that the model follows:

- **Integer digits.** The decoder (lines 111-134) reads a ones digit and
  an optional tens digit, so it has at most two integer digits. A third
  integer digit is not decoded. Values therefore range over -99.9..99.9,
  which is -999..999 tenths.
- **One worker.** With `concurrency == 1`, the code still starts one
  worker on `[0, size - clip)` and then scans the tail. It is not a single
  scan of the whole file.
- **Semicolons in names.** A station name may contain `;`. The decoder
  finds the semicolon from the right, by the shape of the number.

## Model

| member | source | states |
|---|---|---|
| Wire.ClearZeroBits | pkg/report/parse.go:112-124 | `b &^ '0'` is the digit value on `'0'..'9'`; on any byte it clears bits 4 and 5 and keeps the other six bits |
| Wire.Value | pkg/report/parse.go:111-134 | a reading's value in tenths lies in [-999, 999]; it is negative only with a minus sign and positive only without one |
| Wire.FromTenthsRoundTrip | pkg/report/parse.go:111-134 | every t in [-999, 999] written as `name;[-]<abs(t)/10>.<abs(t)%10>\n` is a line whose value is exactly t |
| Wire.NameHashIsReversedFnv1a | pkg/report/parse.go:139-148 | the decoder's hash, starting at 2166136261 and computing `(h ^ b) * 16777619` mod 2^32, is standard FNV-1a over the name read from last byte to first |
| Wire.TinyShape | pkg/report/parse.go:11 | the lines shorter than `lenMinReading`, the length of `A;0.0\n`, are exactly the five-byte lines `;D.D\n`: empty name, no sign, one integer digit |
| Aggregation.Table.constructor | pkg/report/parse.go:31 | a new table holds no records |
| Aggregation.Table.Add | pkg/report/parse.go:143 | `add` appends the record to the table's log |
| Aggregation.Table.Merge | pkg/report/parse.go:45 | `merge` appends the other table's records, leaving that table alone |
| Report.FileOfLines | pkg/report/parse.go:91-153 | any run of valid lines, followed by a tail with no newline, is a well-formed file whose tail is that tail |
| Layout.HoldsSplit | pkg/report/parse.go:91-100 | a file that holds lines is exactly their bytes, then a tail in which no byte is a newline |
| Report.TerminalNewline | pkg/report/parse.go:92-100 | the result is 0 or the index of a newline, and no later byte is a newline |
| Report.TerminalNewlineOfLines | pkg/report/parse.go:92-106 | in a window of lines a..b, the terminal newline is the last line's newline, or 0 when the window holds no line |
| Report.SkipTail | pkg/report/parse.go:92-100 | the first loop returns the terminal newline and leaves i just before it, or at 0 (-1 on an empty window) when there is none |
| Report.DecodeTemperature | pkg/report/parse.go:111-134 | on a placed line, whose tenths digit is at i, the decoded temperature is the line's value and decoding stops on its semicolon |
| Report.ConsumeName | pkg/report/parse.go:135-149 | the walk stops on the nearest newline left of the semicolon, or at -1; the hash is NameHash of exactly the bytes in between |
| Report.DecodeRecord | pkg/report/parse.go:110-150 | one pass yields `Reading` of line k-1, with its station bytes, hash and value, and moves to the newline before it; it is negative exactly at the window's first line |
| Report.DecodeRecords | pkg/report/parse.go:107-152 | from the last record, the loop appends the records of every line of the window, last line first |
| Report.ParseBytes | pkg/report/parse.go:91-153 | the result is the terminal newline, 0 for a window with no line; a window whose terminal newline comes before index 5 adds nothing, whatever its bytes; on a window of lines it adds `Decoded`: each line's record once, last line first, or nothing when the lines take fewer than 6 bytes |
| Layout.ShortWindow | pkg/report/parse.go:101-106 | the lines of a window take fewer than `lenMinReading` bytes exactly when the window holds no line or a single tiny line |
| Layout.DecodedBounds | pkg/report/parse.go:101-152 | the records decoded from a window are records of its lines, include the record of every line that is not tiny, and are all of them when no line is tiny |
| Layout.TinyWindowDropped | pkg/report/parse.go:104-106 | the window `;2.0\n` holds a line, yet decodes to no record |
| Report.BytesAfter | pkg/report/parse.go:59-65 | the count c of bytes after the last `b`: byte `len-1-c` is `b` and no later byte is; None exactly when no byte is `b` |
| Report.BytesAfterLast | pkg/report/parse.go:59-64 | the count is fixed by the last occurrence of `b` |
| Report.Probe | pkg/report/parse.go:50-66 | the probe looks at the min(512, end) bytes before `end`; on success byte `end-1-c` is `b` with none after it; None exactly when the window passes the file's end or holds no `b` |
| Report.BytesAfterLastByte | pkg/report/parse.go:50-66 | the loop computes the probe exactly; None stands for the two panics |
| Report.SplitPoint | pkg/report/parse.go:81-87 | left < splitAt < right; the left part is half the range, or when half > maxReadLength a positive multiple of maxReadLength less than one read below half; both parts hold at least MaxLine bytes |
| Report.LongWindowHoldsLine | pkg/report/parse.go:79-88 | a range of at least MaxLine bytes from a line start holds a complete line, so the right half always resumes past `left` |
| Report.ParseRead | pkg/report/parse.go:73-80 | a leaf reads `[left, right)` once and adds what `parseBytes` decodes from the complete lines in it: all of them, unless they are one tiny line; it returns the absolute index of their last newline, or `left` |
| Report.ParseFileLeftRight | pkg/report/parse.go:72-89 | over any split, each line that ends inside `[left, right)` is added at most once (no overlap), and exactly once unless it is tiny (no gap); the result is the last such newline; `right - left` decreases on both recursive calls |
| Report.ParseComplete | pkg/report/parse.go:68-70 | one scan of the whole file adds every line's record at most once and that of every line that is not tiny exactly once; a file with no tiny line gets every record exactly once |
| Layout.BackwardBag | pkg/report/parse.go:140-151 | the right-to-left records of a run of lines are, as a multiset, the run's records |
| Layout.BagSplit | pkg/report/parse.go:88 | the records of lines a..b are those of a..m plus those of m..b |
| Layout.KeptSplit | pkg/report/parse.go:88 | the records of the lines of a..b that are not tiny are those of a..m plus those of m..b |
| Layout.KeptWithin | pkg/report/parse.go:88 | the records of the lines that are not tiny are among the records of all lines |
| Layout.ScannedJoin | pkg/report/parse.go:88 | a scan of the lines a..m followed by a scan of m..b is a scan of a..b |
| Layout.ScannedJoinLaterFirst | pkg/report/parse.go:41-46 | a scan of the lines m..b followed by a scan of a..m is a scan of a..b |
| Layout.ScannedExact | pkg/report/parse.go:68-70 | a scan of lines none of which is tiny adds exactly their records |
| Layout.SubWindow | pkg/report/parse.go:75-79 | the bytes read from the start of line a up to n hold exactly the lines a..Complete(n), with no newline after them |
| Layout.NewlineBoundary | pkg/report/parse.go:141-145 | every newline of a well-formed file closes a line: the byte after it starts a line |
| Report.NextOffset | pkg/report/parse.go:30-38 | the next worker offset is `offset + chunk - clip`: just after a newline, at most `offset + chunk`, less than 512 before it, with no newline in between, and not before a line-start `offset`; None exactly when the probe fails |
| Report.ClipIsNext | pkg/report/parse.go:30-38 | a successful probe at `offset + chunk` gives the next offset, within `[offset, size]` |
| Report.NextOffsetStartsLine | pkg/report/parse.go:38 | the offset reached is the start of a line of the file |
| Report.BoundaryStartsLine | pkg/report/parse.go:38 | 0 and every offset just after a newline are line boundaries of a well-formed file |
| Report.ChainedSnoc | pkg/report/parse.go:28-39 | one more successful probe extends the chain of worker offsets |
| Report.ChainedUnique | pkg/report/parse.go:28-39 | the worker offsets are determined by the file and the chunk size: two chains agree wherever both are defined |
| Report.ChainedAtLineStarts | pkg/report/parse.go:28-39 | every worker offset after the first is just after a newline |
| Report.Partition | pkg/report/parse.go:28-39 | the worker ranges start at 0 and are contiguous and disjoint; each ends just after a newline and is at most `chunkSize` long, clipped by less than 512 |
| Report.ChunksFit | pkg/report/parse.go:24 | k chunks of `size / concurrency` bytes fit in the file, for k up to concurrency |
| Report.BoundariesWithin | pkg/report/parse.go:24-38 | the k-th worker offset is at most k times chunkSize |
| Report.ProbesInFile | pkg/report/parse.go:24-30 | with `chunkSize = size / concurrency`, every worker's probe ends inside the file, so a probe fails only when its window holds no newline |
| Report.SpawnWorker | pkg/report/parse.go:29-38 | one pass probes for the next offset and scans the range up to it into a fresh table, which then holds a scan of the lines in that range |
| Report.SpawnedSnoc | pkg/report/parse.go:28-39 | one more worker keeps the loop state: chained offsets, each offset the start of line `idx[j]`, ascending line indices, table j holding the scan of range j |
| Report.SpawnWorkers | pkg/report/parse.go:27-39 | the loop returns `concurrency` tables, table j holding the scan of the lines from offset j to offset j + 1, every offset the start of its line `idx[j]`, and the offset where the last range ends; it returns None exactly when a probe fails, and then the last probe failed |
| Report.MergeAll | pkg/report/parse.go:43-46 | after the merge loop the result holds its own records plus the scans of every worker's range |
| Report.ParseFile | pkg/report/parse.go:18-48 | with worker offsets given by the probes, the result exists exactly when all `concurrency` probes succeed. It then holds every line's record at most once and that of every line that is not tiny exactly once; with no tiny line it holds every record exactly once, the same multiset as ParseComplete. It fails only when a probe window inside the file holds no newline |

## Left out

- File I/O: `f.Stat()`, `os.File` and `ReadAt` are not modelled. The file is a byte sequence and a read is a slice.
- `panic(err)` paths (lines 19-22, 56-58, 76-78):
  - The probe's read past the end of the file and its "not found" panic are the `None` of `Report.Probe`.
  - A failing probe in the worker loop makes `Report.SpawnWorkers` and `Report.ParseFile` return `None`.
  - The scanner's reads stay inside the file by precondition.
- Goroutines and `sync.WaitGroup` (lines 26-43): each worker is run to completion when it is started. The workers share no state, so the order does not change the result.
- `hashMap`, `newHashMap`, `add` and `merge` are not part of this model.
  - The table is a log of records.
  - The per-station count, sum, min and max the real table keeps are functions of that log. They are not modelled.
  - Nor are buckets and collisions.
  - `merge` is modelled as appending in place to the receiving table, not as returning a new map.
- The single `parsed` record that `parseBytes` reuses for every `add` (line 109) is modelled as a fresh value per record. Whether `add` copies it is decided by code outside this model.
- The shared read buffer `buf` and its reslicing (lines 33, 41, 75) are not modelled. Each read is a fresh slice.
- Malformed input: the code checks no format. Masking a non-digit yields garbage and a bad index panics. Scans are therefore proved only for well-formed windows (`Layout.Holds`), and for windows too short to decode, which add nothing.
- Report.ParseFileLeftRight: requires `Report.WellFormed`. No line may be longer than `MaxLine` (262144 bytes, half a read), and the unterminated tail must be shorter than `MaxLine`.
  - Under these bounds, the left half of every split holds a complete line, so the right half resumes at a line start.
  - The tail bound matters only for a range that lies wholly in the tail. `parseBytes` then returns 0, and the right half resumes at `left + 1`. It adds no record either, so only the returned index differs from the model's. That case is not modelled.
  - A line longer than `MaxLine` can leave a left half with no newline while lines follow it. The right half would then resume inside that line. Not modelled.
  - The same bounds are required by `Report.ParseComplete`, `Report.SpawnWorker`, `Report.SpawnWorkers` and `Report.ParseFile`.
- Report.ParseFileLeftRight: does not say which tiny lines are lost. That depends on where the splits fall. It only says that every other line is added once and no line twice.
- Report.ParseComplete: does not say which tiny lines are lost, for the same reason.
- Report.SpawnWorker: does not say which tiny lines of its range are lost, for the same reason.
- Report.SpawnWorkers: does not say which tiny lines are lost, for the same reason.
- Report.MergeAll: does not say which tiny lines are lost, for the same reason.
- Report.ParseFile: does not say which tiny lines are lost. That depends on the worker offsets as well as the splits, so the result can depend on `concurrency`.
- Report.ParseFile: requires `concurrency >= 1`, because `size / concurrency` panics in Go for 0.
- Integer widths: offsets and sizes are unbounded integers. The code's `int` and `int64` cannot overflow for files of realistic size. The `uint8` sum of the tenths and ones digits is wrapped modulo 256. The 32-bit hash is a `bv32`.
- Printing of results is not part of `parse.go`.
