# archivist line repair, modelled in Dafny

archivist repairs pipe-delimited text files whose records were broken by
stray line breaks. `fixFile` in `main.go` does the following:

1. It counts the file's `'\n'` bytes through a fixed-size read buffer (`countLines`).
2. It splits the file into that many pieces with `bytes.SplitN` and trims `'\n'` from both ends of the last piece.
3. It cuts the lines into four static chunks and re-joins each chunk with `'\n'`.
4. It hands each chunk to a worker. The worker re-scans the chunk line by line and classifies each line by its count of `'|'` against the expected count (`normalizeLines`):
   - too few: the line is glued to the next two lines and sent tagged `trimmed:`;
   - too many: the line is sent unchanged, tagged `bad:`;
   - exactly right: each field is trimmed and followed by an escaped delimiter `\|`.
5. A router reads the merged results and dispatches each value by its prefix alone.

The project models that pipeline. Bytes are `char`s and byte strings are `string`s.

| file | module | what it holds |
|---|---|---|
| `results.dfy` | `Results` | `Option` and `Result` |
| `text.dfy` | `Text` | the Go byte-string operations the core relies on: `bytes.Count`, `IndexByte` (`Find`), `strings.Split`, `bytes.SplitN`, `bytes.Join`, `bytes.Trim`, `strings.TrimSpace` and `strings.HasPrefix`, with the lemmas that relate them |
| `line_counter.dfy` | `LineCounter` | `countLines` as a loop over an `array` buffer filled by a reader value |
| `line_scanner.dfy` | `LineScanner` | `bufio.Scanner` with `ScanLines`, as the pure function `Lines` and as a `Scanner` class whose `Scan` cuts one token |
| `classifier.dfy` | `Classifier` | `normalizeLines`, both as the `Classify` specification and as the imperative `NormalizeLines` loop over a `Scanner` |
| `router.dfy` | `Router` | the prefix router and its loop over the results stream |
| `pipeline.dfy` | `Pipeline` | the line split and trim, the partition, the jobs, `FixFile`, and the merge of the workers' result streams under a schedule |
| `program.dfy` | `Program` | the merged result streams routed into the sinks, chunk by chunk |

Two kinds of behaviour are stated and proved as lemmas rather than corrected:

- **Misrouting.** Good texts carry no tag, so a good record whose first trimmed field starts with `bad:` or `trimmed:` is misrouted (`Router.GoodRecordMisrouted`, `Router.RouteRender`).
- **Repairs cut at chunk boundaries.** A repair at the end of a chunk cannot reach the next chunk's lines (`Pipeline.PartitionSplitsRepair`). Chunking agrees with a single sequential run when every chunk but the last ends on a decision boundary (`Pipeline.ChunkwiseIsSequential` over the chunks' lines). For what the workers actually classify, the re-joined and re-scanned chunks, `Pipeline.JobsAreSequential` assumes in addition that every chunk survives the re-scan: no line holds `'\n'` (false for the last line of a file that does not end in `'\n'`), no line ends in `'\r'`, and no chunk ends in an empty line. These conditions suffice; they are not necessary.

Other quirks of the code, all reproduced by the model:

- When the file does not end in `'\n'`, the last line keeps an inner `'\n'`, and re-scanning its chunk splits it again (`Pipeline.FileLinesUnterminated`).
- When the line before the last is empty, `bytes.Trim` swallows the joining `'\n'` as well.
- A trailing empty line vanishes on re-scan (`LineScanner.LinesOfJoin`).
- The line-break branch of the good path can never fire (`LineScanner.LinesHaveNoNewline`).

The code cuts the lines at `n/4`, `n/2` and `n/2 + n/4`, so the chunk sizes are `n/4`, `n/2 - n/4`, `n/4` and the rest. For example, six lines give chunks of 1, 2, 1 and 2.

## Model

| member | source | states |
|---|---|---|
| LineCounter.CountLines | main.go:192-211 | for any positive buffer size, the count returned is the number of `'\n'` bytes the reader delivers; with a failing reader the error comes back with the count of every byte delivered before it |
| LineCounter.ConsumeWindow | main.go:199-204 | the bytes still to come are the window just read followed by the rest, so adding the window's count keeps the running total exact |
| LineCounter.Read | main.go:199 | one `Read` fills the buffer with the next `min(len(buf), remaining)` bytes, or answers io.EOF (or the reader's fault) with nothing read once the data is exhausted |
| Text.CountZero | main.go:83-88 | the newline count is zero exactly when the data holds no `'\n'` |
| Text.CountAppend | main.go:204 | counting is additive over concatenation, so per-window counts add up to the whole |
| Text.FindFirst | main.go:121-123 | the index the router cuts at is the first `':'`: the byte there is `':'`, none comes before it, and the end is reached only when there is none |
| Text.FindAfter | main.go:121-123 | after a prefix free of `c`, the first `c` is the one right after the prefix |
| Text.SplitLength | main.go:139-140 | `strings.Split` yields `strings.Count + 1` pieces |
| Text.SplitPiecesFree | main.go:140 | no field holds the separator |
| Text.SplitPiecesLack | main.go:140 | a byte absent from the line is absent from every field |
| Text.JoinSplit | main.go:109 | joining the pieces of a split restores the string |
| Text.SplitJoin | main.go:109 | splitting a join of separator-free pieces restores the pieces |
| Text.SplitNLength | main.go:86 | `bytes.SplitN` gives nothing for n = 0, n pieces when there are at least n-1 separators, and one more piece than there are separators otherwise |
| Text.SplitNShape | main.go:86 | SplitN keeps the first n-1 pieces of Split and puts the remaining pieces, re-joined by their separators, last |
| Text.TrimLeftSuffix | main.go:88 | `bytes.Trim` on the left keeps the suffix after the longest run of cut bytes, and what it keeps starts with a byte outside the set |
| Text.TrimRightPrefix | main.go:88 | `bytes.Trim` on the right keeps the prefix before the longest run of cut bytes, and what it keeps ends with a byte outside the set |
| Text.TrimKeepsAbsent | main.go:168 | trimming adds no byte the string did not hold |
| Pipeline.FileLinesShape | main.go:86-88 | with n `'\n'` bytes there are n lines: the first n-1 are the file's own, and the last is the final two pieces joined by `'\n'` and trimmed of `'\n'` |
| Pipeline.FileLinesTerminated | main.go:86-88 | a file ending in `'\n'` yields exactly its lines, with no spurious empty last line |
| Pipeline.FileLinesUnterminated | main.go:86-88 | in a file not ending in `'\n'` whose line before the last is not empty, the last line still holds the file's final `'\n'` between the last two pieces |
| Pipeline.LastPieceIsEnd | main.go:86-88 | the last piece of a split ends with the string's last byte when that byte is not the separator |
| Pipeline.SplitSnocSeparator | main.go:86-88 | a trailing separator adds exactly one empty piece |
| Pipeline.TrimNewlineEnd | main.go:88 | trimming `'\n'` from a `'\n'`-free line followed by `'\n'` gives back the line |
| Pipeline.PartitionCovers | main.go:91-96 | there are four chunks, the cuts are ordered `0 <= n/4 <= n/2 <= n/2+n/4 <= n`, the chunk sizes are n/4, n/2-n/4, n/4 and the rest, and concatenating the chunks gives back every line exactly once, in order |
| Pipeline.FixFile | main.go:76-117 | the per-chunk results are those of the specification `ChunkResults`, and fixFile fails, indexing line -1, exactly when the file holds no `'\n'` |
| Pipeline.RunWorkers | main.go:98-117 | each job is classified on its own by one worker run, in job order |
| Pipeline.ClassifyJobsSnoc | main.go:102-112 | one more job adds exactly its own classifier output |
| Pipeline.ChunkwiseIsSequential | main.go:91-96 | if every chunk but the last ends on a decision boundary, classifying each chunk's lines and putting the outputs one chunk after another gives the outputs of one sequential run over all the lines |
| Pipeline.RescanChunk | main.go:135-137 | a chunk with no `'\n'` in a line, no line ending in `'\r'` and a non-empty last line is given back unchanged by re-joining with `'\n'` and re-scanning |
| Pipeline.RenderAllAppend | main.go:156-179 | the strings sent for two runs of decisions are those of the first run followed by those of the second |
| Pipeline.JobsAreSequential | main.go:91-137 | if every chunk survives the re-scan and every chunk but the last ends on a decision boundary, what the workers send for the jobs, job after job, is what one sequential run over all the lines would send |
| Pipeline.PartitionSplitsRepair | main.go:91-96 | with one `'\|'` expected, the lines `a`, `b\|c`, `d\|e`, `f\|g` repair `a` with the next two in one run, but the first of the four chunks repairs `a` alone |
| Pipeline.Merge | main.go:99 | the merged results stream holds one value per step of the schedule |
| Pipeline.MergeKeepsChunkOrder | main.go:114-119 | whatever the interleaving, the values the router receives from one chunk are exactly that chunk's results, in the order its worker sent them |
| LineScanner.DropCRAll | main.go:136-137 | dropping a trailing `'\r'` from each line keeps the number of lines |
| LineScanner.Lines | main.go:135-137 | each token consumes at least one byte of the input |
| LineScanner.LinesHaveNoNewline | main.go:172-176 | no scanned line holds `'\n'`, so the line-break branch of the good path is dead |
| LineScanner.LinesOfFirst | main.go:109 | re-scanning a line followed by `'\n'` yields that line first, less a trailing `'\r'` |
| LineScanner.LinesOfJoin | main.go:109 | re-scanning lines joined by `'\n'` gives them back, each less one trailing `'\r'`, except that a final empty line disappears |
| LineScanner.Scanner.Scan | main.go:136-137 | `Scan` answers true exactly while input remains, cuts the next token so that the token and the lines still to come are the lines of the old input, and leaves an empty token once the input is exhausted |
| Classifier.Step | main.go:142-163 | a decision consumes three lines for a repair, as far as the chunk has them, and one otherwise |
| Classifier.ClassifyConsumesEveryLine | main.go:136-181 | every line is consumed by exactly one decision: there are at most as many outputs as lines, and the lines accounted for overshoot by at most the two a final repair could not find |
| Classifier.WeightExactIffClosed | main.go:142-156 | the decisions consume exactly the chunk's lines if and only if no repair runs past the chunk's end |
| Classifier.ClassifyAppend | main.go:136-181 | outputs follow line order: lines ending on a decision boundary are classified the same whatever follows them, and ahead of it |
| Classifier.DecideAppend | main.go:142-163 | a decision that stays within its lines is unaffected by the lines after them |
| Classifier.GoodTextIsJoin | main.go:164-177 | a good text is the trimmed fields, each followed by `\`, joined by `'\|'`, with one more `'\|'` at the end |
| Classifier.GoodTextEscapesEveryBar | main.go:167-177 | every `'\|'` of a good text is preceded by `\` |
| Classifier.GoodRecord | main.go:139-179 | a line with exactly the expected count of `'\|'` has expected+1 fields; its good text holds expected+1 `'\|'`, each escaped, and deleting the escapes gives back the trimmed fields in order |
| Classifier.UnescapeEscaped | main.go:167-177 | deleting the `\` after each trimmed field gives back the trimmed field |
| Classifier.NormalizeRecord | main.go:165-179 | the good buffer is built field by field into the good text of the fields |
| Classifier.ScanFollows | main.go:148-153 | each extra Scan yields the next pending line, or the empty string once the chunk is exhausted |
| Classifier.RepairRecord | main.go:142-156 | the repaired text is `trimmed:` followed by the trimmed current line and the trimmed next two lines, or the empty string for each missing one, and those two lines are consumed |
| Classifier.NextDecision | main.go:136-180 | sending one decision's text leaves the decisions over the remaining lines to be sent |
| Classifier.NormalizeLines | main.go:131-184 | the stream one worker sends is the rendering of `Classify` over the scanned lines of its job |
| Router.RoutePayload | main.go:119-127 | a value starting with `trimmed:` goes to the repaired sink and one starting with `bad:` to the bad sink, each with its prefix removed; anything else goes to the good sink whole |
| Router.RouteRender | main.go:119-127 | routing a worker's value recovers the classifier's decision exactly when that decision is not a good text starting with `trimmed:` or `bad:` |
| Router.BadLineRoundTrip | main.go:122-123 | a line with too many `'\|'` comes out of the bad sink exactly as it went in |
| Router.RepairedLineRoundTrip | main.go:120-121 | a line with too few `'\|'` comes out of the repaired sink as itself and the next two lines, trimmed and concatenated |
| Router.GoodRecordMisrouted | main.go:119-127 | a well-formed record whose first trimmed field starts with `trimmed:` or `bad:` is classified good but routed to the repaired or the bad sink |
| Router.GoodTextStartsWithFirst | main.go:164-179 | a good text begins with its first trimmed field |
| Router.SinksPartition | main.go:119-127 | every routed value lands in exactly one sink |
| Router.SinkAppend | main.go:119-127 | each sink of a concatenated stream is the concatenation of the sinks |
| Router.RouteEachRenderAll | main.go:119-127 | when no good text carries a tag prefix, routing the rendered results recovers every decision, in order |
| Router.RouteSnoc | main.go:119-127 | one more value adds its payload to its own sink only |
| Router.RouteAll | main.go:119-127 | the router loop fills each sink with the payloads of its kind, in arrival order |
| Text.Count | main.go:139 | definition of `bytes.Count`/`strings.Count` for one byte: the number of its occurrences |
| Text.Find | main.go:121-123 | definition of the first-index search: the position of the first `c`, or the length when there is none (partner lemmas `Text.FindFirst`, `Text.FindBound`) |
| Text.Split | main.go:140 | definition of `strings.Split` on one byte: the pieces between the separators, never empty (partners `Text.SplitLength`, `Text.JoinSplit`, `Text.SplitJoin`) |
| Text.SplitN | main.go:86 | definition of `bytes.SplitN` on one byte: nothing for n = 0, otherwise at most n pieces with the unsplit remainder last (partners `Text.SplitNLength`, `Text.SplitNShape`) |
| Text.Join | main.go:109 | definition of `bytes.Join` with a one-byte separator |
| Text.Trim | main.go:88 | definition of `bytes.Trim`: TrimLeft then TrimRight (partners `Text.TrimLeftSuffix`, `Text.TrimRightPrefix`) |
| Text.TrimSpace | main.go:168 | definition of `strings.TrimSpace` over the ASCII white space bytes |
| LineScanner.DropCR | main.go:136-137 | definition of `ScanLines`' removal of one trailing `'\r'` from a token |
| Classifier.Render | main.go:145-179 | definition of the string a worker sends: `trimmed:` or `bad:` before repaired and bad texts, no tag before a good text |
| Classifier.Field | main.go:168-176 | definition of what the good branch writes for one field: the trimmed field, then `\|`, or a line break when the field holds one |
| Classifier.GoodText | main.go:167-177 | definition of the good buffer: the fields written one after another (partners `Classifier.GoodRecord`, `Classifier.NormalizeRecord`) |
| Classifier.Decide | main.go:139-180 | definition of the decision for the current line: repaired with the next two lines when it has too few `'\|'`, bad when too many, good otherwise |
| Classifier.Classify | main.go:136-181 | definition of the decisions over a chunk's lines, in line order, each repair consuming three (partner `Classifier.NormalizeLines`) |
| Router.Route | main.go:119-127 | definition of the router's reading of one value: the tag selects the sink and the payload follows the first `':'` (partners `Router.RoutePayload`, `Router.RouteRender`) |
| Text.HasPrefix | main.go:120-122 | definition of `strings.HasPrefix`: the string is at least as long as the prefix and starts with it (used by `Router.Route`) |
| Classifier.At | main.go:148-153 | definition of `Text()` after k extra `Scan` calls: the k-th pending line, or `""` once the chunk is exhausted (partner `Classifier.ScanFollows`) |
| LineScanner.Scanner.constructor | main.go:135 | a new scanner over a job has the whole job still to scan and an empty token |
| Router.Sink | main.go:119-127 | definition of one sink: the payloads of the values routed to that kind, in arrival order (partners `Router.SinkAppend`, `Router.SinksPartition`, `Router.RouteAll`) |
| Pipeline.FileLines | main.go:86-88 | definition of the split and last-line trim, with the missing-newline case as an index error (partners `Pipeline.FileLinesShape`, `Pipeline.FileLinesTerminated`) |
| Pipeline.Partition | main.go:91-96 | definition of the four static chunks (partner `Pipeline.PartitionCovers`) |
| Pipeline.Jobs | main.go:109 | the job a worker gets is its chunk joined by `'\n'` |
| Pipeline.ClassifyJobs | main.go:131-181 | each job's result stream is the rendering of `Classify` over the job's scanned lines |
| Pipeline.ChunkResults | main.go:76-117 | definition of what the four workers send, chunk by chunk, or the index error (partner `Pipeline.FixFile`) |
| Program.PickRouteEach | main.go:119-127 | routing the merged stream and then picking one chunk's values is picking them first and routing after |
| Program.RoutedPerChunk | main.go:98-127 | under any fitting schedule, the values each sink receives from chunk i are, in order, that kind's values among chunk i's own routed results |
| Program.FileRoutedPerChunk | main.go:76-127 | the same for one file: there are four result streams, and each chunk's share of each sink is what routing that chunk's results alone would give |

## Left out

- The command line (`checkFlags`, the flag globals and `main`) is not modelled. `expectedDelims` and `bufferSize` are parameters.
- The S3 listing `getObjectsInBucket` is left out. It is a foreign SDK call over the network.
- Opening and memory-mapping the file, and `check`/`log.Fatal`, are left out. They are file I/O and process exit. The mapped bytes are the `data` parameter. An empty file already fails at the mapping (main.go:80-81), where the model answers `IndexOutOfRange` at main.go:88.
- The goroutines, channels and `sync.WaitGroup` are left out because they are concurrency.
  - The workers run one after another in `Pipeline.RunWorkers`.
  - The results channel is `Pipeline.Merge` under an arbitrary schedule parameter.
- Printing the routed values is left out. The router returns its three sinks instead. The program itself prints only the bad sink's payloads (main.go:123); the lines that would print the repaired and the good values (main.go:121, 125) are commented out, so the repaired and good sinks of the model are values the program only tests by prefix and never outputs.
- The token-size limit of `bufio.Scanner` (`ErrTooLong`) is left out. A scanner in the model accepts lines of any length.
- `Text.TrimSpace` trims the ASCII white space bytes only. The non-ASCII Unicode white space that Go also trims is left out, because the model works on bytes.
- Go's 64-bit `int` and `uint` overflow is left out. Counts and indices are unbounded.
- `LineCounter.CountLines` requires a positive buffer size. With an empty buffer a `bytes.Reader` never advances, and when the data is not empty the loop would not end (on empty data the first `Read` answers `io.EOF`).
- `LineCounter.Read` models the reader as a `bytes.Reader`, which is what the source passes. For a general `io.Reader`, the model only adds a reader that stops at a fault position with a non-EOF error.
- `Text.Find` returns the string's length where Go's index functions answer -1.
- `Pipeline.FixFile` stops at the per-chunk results; routing them is `Router.RouteAll`.
