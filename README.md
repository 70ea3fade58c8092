# Freya DNS worker: result parser and worker cycle

A Dafny model of the core of the Freya worker (`main.go`). The worker fetches a
resolver list once. Then it loops forever: it downloads a batch of candidate
domains, runs the `massdns` resolver over them, extracts the domains that
resolved with NOERROR from the resolver's line output, uploads them, and removes
the cycle's scratch files.

- `strings.dfy` (module `GoStrings`) models the Go `strings` operations the parser uses.
  These are `Contains`, `Split(s, " ")[0]`, `TrimSuffix(s, ".")` and ASCII `ToLower`.
- `parser.dfy` (module `Parser`) models `ProcessRecord` as a function.
  It models `ProcessOutput` as a method with the source's loop and its `lineNum` counter.
  The method is proved against `Results`, a function over the scanned lines.
  `Results` is in turn proved equal to a description that does not use a counter.
  That description says which lines lie in a 3-line answer window after the last NXDOMAIN line.
  The input file is given as its sequence of lines.
  The result file is the text written to it: each domain followed by `"\n"`.
- `worker.dfy` (module `Worker`) models `Client.Run`.
  Each transfer and the resolver subprocess are described only by how they end, which is an input.
  One loop iteration is `RunCycle`. It is proved against the trace function `CycleTrace` and the file-set function `CycleFiles`.
  `Run` covers the bootstrap download plus the first `|cycles|` loop iterations; the loop itself is `CycleLoop`.
  It records the actions taken (downloads, sleeps, resolver run, parse, upload with its body, removals, exit) and which scratch files exist.
  `Run` is proved against `RunTrace` and `FilesAfter`, which chain the cycles one after the other.

Behaviours of the code worth noting:

- An NXDOMAIN line does not silence the lines after it. It resets the counter to 0, and the counter is then incremented.
  So the next three lines fall inside a fresh answer window (`ResetReopensWindow`).
  After `bad.example. IN A NXDOMAIN`, three following NOERROR lines are all written.
- The first line of the output is never written, because the counter is 0 when it is checked (`NeverEmitted`).
- The domain is the text before the first single space. A tab or other white space does not end it (`WholeLineWithoutSpace`).
- `Upload` returns an error in two cases: a request that could not be built (main.go:134-138), or a final response whose status is not 200 (main.go:153-155).
  The retrying client retries some statuses, such as a 5xx other than 501; when its retries run out it returns an error, and main.go:147-149 then calls `log.Fatal`.
  An open failure or a form failure (main.go:109-122) also calls `log.Fatal`, before any request is sent.
- `Download` creates (truncates) the destination file before it sends the request.
  After a failed batch download, `/tmp/input.txt` therefore exists unless it could not be created.
  Nothing removes it before the next cycle truncates it again (`FailedDownloadSkipsCycle`).

## Model

| member | source | states |
|---|---|---|
| `GoStrings.Contains` | main.go:219-224 | `strings.Contains(s, sub)` holds iff `sub` occurs at some position of `s` |
| `GoStrings.PrefixBefore` | main.go:286 | `Split(s, " ")[0]` is the longest prefix of `s` without the separator: the whole of `s`, or the part cut just before a separator |
| `GoStrings.TrimDot` | main.go:287 | `TrimSuffix(s, ".")` removes exactly one trailing dot when there is one and otherwise leaves `s` unchanged |
| `GoStrings.ToLower` | main.go:288 | lower-casing keeps the length and maps each character through ASCII case mapping |
| `GoStrings.ToLowerIdempotent` | main.go:288 | a lower-cased string has no upper-case letter, and lower-casing it again changes nothing |
| `GoStrings.ToLowerKeepsOthers` | main.go:288 | lower-casing neither adds nor removes spaces, dots or line breaks |
| `Parser.ProcessRecord` | main.go:285-291 | the domain is no longer than the line and holds no space; `RecordIsLoweredPrefix`, `RecordOfQualifiedName` and `WholeLineWithoutSpace` say which text it is |
| `Parser.RecordIsLoweredPrefix` | main.go:285-291 | the domain `ProcessRecord` returns is the lower-casing of a prefix of the line, contains no space and has no upper-case letter |
| `Parser.RecordOfQualifiedName` | main.go:285-291 | for a record line `name. rest` whose `name` has no space, the result is exactly `name` lower-cased; one root dot is dropped (`Example.COM. IN A NOERROR` gives `example.com`) |
| `Parser.WholeLineWithoutSpace` | main.go:286-288 | a line with no space is used whole, with one trailing dot dropped, lower-cased |
| `Parser.Results` | main.go:217-234 | the domains the loop writes: fewer than the lines, since the first line never gives one; the lemmas below prove they are `ProcessRecord` of exactly the qualifying lines, in order |
| `Parser.CounterWithoutReset` | main.go:214-233 | with no NXDOMAIN line so far, `lineNum` equals the number of lines scanned |
| `Parser.CounterAfterReset` | main.go:219-233 | after the last NXDOMAIN line at position j, `lineNum` is the number of lines scanned minus j |
| `Parser.EmitsIffQualifies` | main.go:217-234 | the counter machine writes line k iff the line contains NOERROR, does not contain NXDOMAIN, and lies 1 to 3 lines after the last earlier NXDOMAIN line (or at position 1 to 3 when there is none) |
| `Parser.EmittedPositions` | main.go:217-234 | the positions of the written lines, strictly increasing, all of them, and never position 0 |
| `Parser.EmittedPositionsQualify` | main.go:217-234 | a position is written iff its line qualifies by the counter-free description |
| `Parser.ResultsAreEmittedRecords` | main.go:217-234 | the written domains are, in input order, `ProcessRecord` of exactly the written lines |
| `Parser.ResultsSound` | main.go:219-226 | every written domain comes from a NOERROR line without NXDOMAIN that lies in its answer window and is not the first line |
| `Parser.ResultsComplete` | main.go:219-226 | every NOERROR line without NXDOMAIN that lies in its answer window is written |
| `Parser.NeverEmitted` | main.go:214-225 | the first line is never written, and neither is a line with both NXDOMAIN and NOERROR |
| `Parser.ResetReopensWindow` | main.go:219-233 | a NOERROR line 1 to 3 lines after an NXDOMAIN line, with no NXDOMAIN in between, is written |
| `Parser.ResultsBound` | main.go:217-234 | at most one domain per line, and at most 3 per window: at most 3 × (number of NXDOMAIN lines + 1) |
| `Parser.RenderAppend` | main.go:226 | appending a domain to the result file adds that domain followed by `"\n"` |
| `Parser.SplitRender` | main.go:226 | reading the result text back line by line gives the written domains, when none of them holds a line break |
| `Parser.ResultFileReadsBack` | main.go:217-236 | the result file of any scanned output (whose lines hold no line break) reads back as exactly the result sequence |
| `Parser.ProcessOutput` | main.go:201-237 | the loop over the lines, with its `lineNum` counter, writes exactly the rendering of `Results` of the lines |
| `Worker.AfterDownload` | main.go:65-71 | a download creates its destination unless the create itself fails, and touches no other file |
| `Worker.FailedDownloadSkipsCycle` | main.go:262-268 | a failed batch download only sleeps 10 s: no resolver, parse, upload or removal, and the process goes on |
| `Worker.DownloadedCycleOrder` | main.go:262-273 | after a download come the resolver run, then the parse, then the upload of exactly the text `ProcessOutput` writes |
| `Worker.CompletedCycleCleansUp` | main.go:273-281 | when the process survives a cycle with a download, the cycle ends by removing the input, output and result files, whatever the upload returned; only an upload error adds the 60 s sleep |
| `Worker.ExitOnlyWhenFatal` | main.go:239-281 | a cycle ends the process iff the resolver fails or the upload aborts, and then as its last step |
| `Worker.CycleStep` | main.go:261-282 | one more cycle keeps the loop's guarantees: the resolver list is fetched only once, the process exits only as the last step and exactly when the cycle is fatal, uploads follow parses, and when the process survives, no resolver output or result file is left |
| `Worker.CycleOrdering` | main.go:261-281 | in a cycle, every upload directly follows a parse that directly follows a resolver run, which directly follows a batch download; the resolver list is not fetched again |
| `Worker.RunCycle` | main.go:261-282 | one loop iteration produces the trace `CycleTrace`, the files `CycleFiles`, and survives iff `Survives` |
| `Worker.Run` | main.go:253-283 | a failed resolver-list download ends the process at once; otherwise the trace and the files are those of the cycles run one after the other (`RunTrace`, `FilesAfter`), every cycle but the last survived, the process is alive iff the last cycle survived, and it is only stopped early by a fatal cycle; the trace and files then meet `Guarantees` |
| `Worker.CycleLoop` | main.go:261-282 | the endless loop over the given outcomes: its trace and files are `RunTrace` and `FilesAfter` of the cycles it ran; it runs them all when every one survives, and otherwise stops right after the first fatal one |
| `Worker.LoopStep` | main.go:261-282 | one more iteration appends that cycle's steps to the trace and applies its file changes, and keeps every cycle so far surviving when it survives |
| `Worker.AllSurviveMeans` | main.go:261-282 | the recursive "all first n cycles survive" is the same as every one of them surviving |
| `Worker.CyclesKeepGuarantees` | main.go:253-283 | after any run of cycles all surviving but perhaps the last: the resolver list is fetched first and only once, Exit is only the last step and occurs exactly when the last cycle was fatal, every upload follows a parse and a resolver run, and while alive no resolver output or result file is left |

## Left out

- `SHA256Sum` and `Check` (binary checksums, invoke path, root user, key present): process bootstrap over OS and crypto libraries.
- The HTTP bodies of `Download` and `Upload`: the retrying client (3 retries), headers, multipart encoding and the status text. Only how each call ends is an input.
- `RunMassDNS`: the subprocess is a black box. Its output is given as lines, and its launch or exit failure is an outcome.
  The requested `-o J` format is not checked against the space-separated layout the parser expects.
- `bufio.Scanner` mechanics. The input is taken as already split lines.
  CR stripping is not modelled. Neither is the 64 KiB token limit: at that limit the Go loop stops early, while the model reads every line.
- `ProcessOutput`: the panics when `/tmp/results.txt` cannot be created, when `/tmp/output.txt` cannot be opened, or when the writer fails. The model assumes these succeed.
- `GoStrings.ToLower`: does not model Unicode case mapping beyond ASCII, because `strings.ToLower` follows Unicode tables that are not part of this model.
- `Worker.Run`: models the first `|cycles|` iterations of the endless loop, starting with no scratch files.
  The contents of the downloaded files are not modelled.
- A resolver that fails may or may not have created `/tmp/output.txt` before it ended; which one happened is part of its outcome, since the subprocess is not modelled.
- Sleeps are actions with their length in seconds; no clock is modelled. Logging, the status web server goroutine and the build or environment globals are also left out.
