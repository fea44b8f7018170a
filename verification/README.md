# Gilti: a verified model of its hard parts

Gilti is a Git web server. This project models the parts of it that are decided by its own code and proves
what they promise. Strings are UTF-8 byte sequences (a byte is a character below 256, so ASCII literals read
as text), Rust integers are unbounded except where their width decides something, and every error path of the
modelled code is a result of the model. `dafny verify dfyconfig.toml` checks everything.

| part | modules | what is proved |
|---|---|---|
| URL scheme, by tokens | `Percent`, `Utf8`, `Lexer`, `Names`, `Grammar`, `Parser` | The lexer and the recursive-descent parser accept exactly the documented grammar, which is unambiguous. |
| URL scheme, by bytes | `Parts`, `RefShapes`, `Urls`, `Spellings`, `TextTokens`, `TextDelimiters`, `SpelledNames`, `SpelledPieces`, `Spelled`, `SpelledRoutes`, `SpelledTexts`, `RoundTrip` | For every path and route: the path denotes the route exactly when it is put together from texts of the pieces of the route's template, where a text is described by its bytes alone. So a route written in any way, each byte raw or escaped, comes back exactly when each text is one, and a printed route exactly when its names, refs and object ids are admissible. |
| SSH names | `Shell`, `ShellNames` | Which names are accepted over SSH and from which arguments; they are safe for HTTP, stable when re-parsed, and reached by the printed URL, by the redirect and, exactly when they do not end in a dot, by the plain clone URL. |
| Log query | `Query`, `LogQuery`, `Decimal`, `QueryForms`, `SearchForms`, `LogRange` | A request shows the log it says, whatever the order and spelling of its parameters, and exactly when they say one; printed links and the search form are two instances. |
| LFS store | `LfsStore`, `LfsWriter`, `LfsEndpoint` | An invariant over all interleavings of uploads and readers, including uploads abandoned at any step; the code of `write` and `write_stream` as runs of that machine; the request protocol on top, with the exact condition of every answer. |
| Diff view | `Subsequence`, `Highlight`, `SideRows` | The dynamic program finds a longest common subsequence, the highlighter marks the fewest characters possible, the side-by-side rows conserve the hunk. |
| Dates | `Calendar`, `Timestamp` | The closed form for dates inverts counting days, for every day before and after 1970; timestamps are written, read back and ordered as RFC 3339 says. |
| `git log` output | `HistoryLog`, `Statistics`, `StatisticsFraming`, `StatisticsReading`, `StatisticsRoundTrip`, `StatisticsExact`, `Whitespace` | Both parsers invert the framing that the format strings ask for, with the exact inputs on which they do. |
| CGI backend | `CgiHead`, `CgiChunking`, `CgiBlankLine`, `CgiRoundTrip`, `BackendBody` | For every stream: when its head is read under every chunking, when it is refused under every chunking, and that the answer depends on the reads in every other case; the polled body delivers its bytes in order, ends cleanly only behind the last one, and does end when its pipe and process answer. What a head says is told from its lines, including the redirect. |

Loops, cursors and fields are kept: `Lex`, `DecodeTokens`, the parser class, the diff table, the chunked reader,
the polled body and the store writer are methods and classes proved against functions, and the theorems are
lemmas about those functions.

## What the proofs found

Where a promise does not hold on every input, the model keeps the code as it is and a lemma says exactly when it
holds:

- A route whose repository or path name has an empty component or a NUL does not survive its own URL
  (`RoundTrip.RoundTrip` is an equivalence).
- In a repository, a `.git` at the end of a component is a suffix only if an odd number of dots stands there:
  two dots are a range first. So `/a..git` is the overview of `a..git`, while `/a.git.git` is the transport route of
  `a.git`, whose overview has no unescaped URL (`Spellings.RepoText`, `SpelledRoutes.SpelledExactly`).
- `LfsStore::write` leaves its temporary file behind when writing fails after creating it
  (`LfsStore.FailedWriteLeaves` is an equivalence, `LfsStore.WriteLeaks` a run); `write_stream` never does.
- A repository accepted over SSH whose name ends in a dot cannot be cloned by its plain URL: the dot and `.git`
  are read as a range (`Shell.PlainCloneExactly`).
- A log row with an empty graph cell below continuation lines, or a first row whose graph opens with an empty
  line, loses a line (`HistoryLog.LogRoundTrip` is an equivalence).
- A changed file whose name ends in `GILTI-STATS` makes the whole statistics output unreadable, unless it is
  renamed from that name to a full object name (`StatisticsRoundTrip.StatisticsAccepted` is an equivalence); an
  output that is accepted reports such a rename as a commit of its new name
  (`StatisticsRoundTrip.DisguisedRename`).
  `StatisticsExact.StatisticsExactly` says for which outputs the table is nevertheless the one printed.
- A well-formed CGI head with LF line ends is accepted or refused depending on how the bytes arrive when a CRLF
  pair ends within the 1024 bytes from the last byte of its blank line on (`CgiBlankLine.LfChunking`), and so is
  any well-formed head that exceeds the limit, counted with its blank line, by 2 to 1024 bytes
  (`CgiChunking.ChunkingExact` and `CgiChunking.ChunkingSame`); all of these are equivalences.
- A poll of the response body with a full buffer, before the output is drained, is taken for the end of the
  output (`BackendBody.StepKeepsDrained` is an equivalence).

Where the code and its comments differ, the model follows the code. In `civil_from_days` the division applies to
the whole `if` expression.

## Model

| member | source | states |
|---|---|---|
| Percent.Encode | crates/gilti/src/urls.rs:8-19 | Encoding leaves alphanumerics (and, for paths, `/` and `_`) alone, spells every other byte as an escape, and decodes back to its input. |
| Percent.EncodedDecodes | crates/gilti/src/urls.rs:8-19 | Decoding inverts all three encoders of the program; the encoded text is ASCII and splits no escape. |
| Percent.WrittenDecodes | crates/gilti/src/router.rs:624-627 | However the bytes of a text are written, raw or escaped with hex digits of either case, the text decodes to them; a stray percent sign stands for itself. |
| Percent.EveryWriting | crates/gilti/src/router.rs:624-627 | Every text is one such way of writing what it decodes to. |
| Utf8.ValidExactly | crates/gilti/src/router.rs:626-627 | The strings that decoding accepts are exactly the encodings of sequences of Unicode scalar values. |
| Lexer.Lex | crates/gilti/src/router.rs:243-298 | The tokens concatenate to the path; delimiters carry their literal; texts are non-empty, never adjoin and split no escape; slices of a string are strings; malformed escapes, `?` and `#` are refused. |
| Lexer.DelimiterAt | crates/gilti/src/router.rs:261-273 | Which delimiter stands at the cursor: `/+/` before `/`, and `.git` only at the end of a segment. |
| Lexer.TokensLexed | crates/gilti/src/router.rs:243-298 | Every lexed path is lossless and well shaped. |
| Lexer.TokensValid | crates/gilti/src/router.rs:278-296 | No token slice cuts a character. |
| Names.DecodeName | crates/gilti/src/router.rs:595-634 | Decoding a name succeeds exactly when the component checks pass and decoding the whole slice at once gives NUL-free UTF-8, with that result; `SpelledNames.NameFlat` says on bytes when they pass. |
| Names.DecodeTokens | crates/gilti/src/router.rs:623-633 | The loop that decodes and checks token by token agrees with decoding the whole slice. |
| Names.TokenByToken | crates/gilti/src/router.rs:623-630 | For lexed tokens, the pieces decode to the whole, and all pieces are UTF-8 exactly when the whole is. |
| Grammar.Unambiguous | crates/gilti/src/router.rs:65-169 | No token sequence is derived by two routes of the documented productions. |
| Grammar.ViewUnique | crates/gilti/src/router.rs:76-140 | What follows `/+/` has one reading: keywords are neither revisions nor one another. |
| Grammar.ComparisonUnique | crates/gilti/src/router.rs:132-140 | A comparison has one pair of revisions and one path. |
| Grammar.RouteSplit | crates/gilti/src/router.rs:311-311 | The repository of a derived route is the run of tokens up to the first boundary or suffix. |
| Parser.ParseRevision | crates/gilti/src/router.rs:547-585 | Returns the revision that the tokens derive, and fails only when none does. |
| Parser.Parser.Expect | crates/gilti/src/router.rs:532-536 | Consumes exactly the expected delimiter, or nothing. |
| Parser.Parser.TakeText | crates/gilti/src/router.rs:520-524 | Consumes one text token and returns its slice, or consumes nothing. |
| Parser.Parser.TakeUntil | crates/gilti/src/router.rs:495-501 | Consumes the longest run free of the given delimiters. |
| Parser.Parser.TakeRest | crates/gilti/src/router.rs:503-507 | Consumes and returns everything left. |
| Parser.Parser.Selector | crates/gilti/src/router.rs:482-484 | Reads the revision up to the next boundary or range. |
| Parser.Parser.OptionalPath | crates/gilti/src/router.rs:486-493 | Reads nothing, or the separator and a path to the end; sound and complete. |
| Parser.Parser.RevisionViewPage | crates/gilti/src/router.rs:371-421 | The productions below a revision: the derived page, or an error when none is derived. |
| Parser.Parser.Feed | crates/gilti/src/router.rs:408-418 | A feed is of a ref, never of `HEAD` or a commit. |
| Parser.Parser.Comparison | crates/gilti/src/router.rs:423-440 | Diff and patch comparisons, sound and complete. |
| Parser.Parser.View | crates/gilti/src/router.rs:326-369 | Everything below `/+/`, sound and complete. |
| Parser.Parser.ObjectPage | crates/gilti/src/router.rs:347-353 | An object page needs a full lower-case id and nothing behind it. |
| Parser.Parser.DiffOrPatch | crates/gilti/src/router.rs:354-358 | The comparison productions, by their keyword. |
| Parser.Parser.RevisionOrView | crates/gilti/src/router.rs:359-367 | The productions that start with a revision, tried after the keywords. |
| Parser.Parser.Git | crates/gilti/src/router.rs:442-480 | The transport routes below `.git`, sound and complete. |
| Parser.Parser.Info | crates/gilti/src/router.rs:448-461 | `info/refs` and `info/lfs` below `.git`. |
| Parser.Parser.Parse | crates/gilti/src/router.rs:306-324 | A token sequence is accepted exactly when it is derived, and the derived route is returned. |
| Parser.ParsePath | crates/gilti/src/router.rs:234-241 | `parse` returns a route exactly when the path denotes it; a path denotes at most one. |
| RefShapes.RefsExactly | crates/gilti/src/router.rs:573-585 | A ref is accepted exactly when it holds none of the strings and characters that Git forbids, told without its components. |
| TextTokens.LexedInFront | crates/gilti/src/router.rs:243-298 | Cut in front of a delimiter, a lexed text falls into two texts that are lexed apart, into the tokens on either side. |
| TextDelimiters.LegibleLexes | crates/gilti/src/router.rs:243-298 | A legible text is lexed apart from what follows unless a boundary or a double dot reaches from one into the other. |
| TextDelimiters.SuffixTokens | crates/gilti/src/router.rs:267-270 | A `.git` is a delimiter exactly at the end of a component, behind an even number of dots. |
| SpelledNames.NameFlat | crates/gilti/src/router.rs:595-634 | A run of tokens names something exactly when its text is legible, decodes to NUL-free UTF-8, has no component that is empty, `.`, `..` or `+` and, for a repository, opens with none that is `-`; and then it names what the text decodes to. |
| SpelledPieces.RevFits | crates/gilti/src/router.rs:547-585 | Tokens are a revision exactly when their text is `HEAD`, a full lower-case object id, or `refs/` and the text of a path that decodes to a ref. |
| Spelled.DerivesMatches | crates/gilti/src/router.rs:65-169 | Every documented production is its template: a token sequence derives a route exactly when it matches the pieces of the template in order. |
| SpelledRoutes.SpelledExactly | crates/gilti/src/router.rs:234-241 | For every path and every route, the path denotes the route exactly when it is made of texts of the pieces of the template of the route; nothing else is accepted. |
| SpelledTexts.WritingReads | crates/gilti/src/router.rs:234-241 | A route whose names are escaped in any way is read back exactly when each text is one of its piece. |
| SpelledTexts.PathWritten | crates/gilti/src/router.rs:595-634 | A name written in any way, byte by byte, is the text of a path exactly when it is NUL-free UTF-8 and no component as written is empty, `.`, `..` or `+`. |
| RoundTrip.NameReads | crates/gilti/src/urls.rs:8-19 | A printed name is the text of a path, and of a repository, exactly when it is non-empty in every component and NUL-free. |
| RoundTrip.RevisionReads | crates/gilti/src/router.rs:547-585 | A printed revision is the text of it exactly when it is `HEAD`, a full lower-case object id or a valid ref. |
| RoundTrip.RoundTrip | crates/gilti/src/router.rs:65-169 | Printing any route by the documented scheme and parsing it gives that route back, in either case of hex digits, exactly when its names, refs and ids are admissible. |
| RoundTrip.DistinctUrls | crates/gilti/src/urls.rs:4-19 | Distinct admissible routes have distinct URLs. |
| Shell.ParseRepository | crates/gilti/src/shell.rs:157-185 | The name spelled by a quoted argument, or the error; the name is returned exactly when it meets every rule for names. |
| Shell.ParseCommand | crates/gilti/src/shell.rs:144-155 | Service and repository of a command line, or the first error. |
| Shell.AcceptedSafe | crates/gilti/src/daemon.rs:712-720 | Every name accepted over SSH passes the HTTP check and is an ASCII name that URLs can carry. |
| Shell.Reparsed | crates/gilti/src/shell.rs:157-185 | An accepted name quoted with a slash and `.git` parses to itself. |
| Shell.ReparsedBare | crates/gilti/src/shell.rs:162-163 | Written bare, an accepted name is kept exactly when it does not end in `.git`. |
| Shell.CommandReads | crates/gilti/src/shell.rs:144-155 | The command line git sends for an accepted name is understood, for all three services. |
| Shell.GitCommands | crates/gilti/src/shell.rs:19-26 | The command lines of the three programs start their own service. |
| Shell.OthersRefused | crates/gilti/src/shell.rs:148-153 | No other program is accepted, with or without an argument. |
| ShellNames.AcceptedExactly | crates/gilti/src/shell.rs:165-185 | The accepted names are exactly those made of letters, digits and `-_./` that open with a letter or digit and hold no `..`, `//`, `/./` or `.git/` and no slash or lone dot at the end, up to the limit. |
| ShellNames.RepositoryExactly | crates/gilti/src/shell.rs:157-185 | A name is read from exactly its two or four quoted forms; an argument is called unquoted exactly when a quote is missing. |
| ShellNames.SafeExactly | crates/gilti/src/daemon.rs:712-720 | A string is safe exactly when none of its characters is a control character or a backslash and no component is empty, `.` or `..`. |
| Shell.Reached | crates/gilti/src/daemon.rs:722-744 | The printed URL and the upper-case redirect of an accepted name parse to its overview, and with `.git/info/refs` to its transport route. |
| Shell.PlainCloneExactly | crates/gilti/src/router.rs:306-324 | The unencoded clone URL works exactly when the name does not end in a dot. |
| Query.ReadQuery | crates/gilti/src/daemon.rs:645-685 | The query is read parameter by parameter; unknown, repeated, ill-encoded or NUL-bearing parameters refuse it. |
| Query.AddedAllSound | crates/gilti/src/daemon.rs:645-694 | Every accepted query records each variable at most once, and only NUL-free UTF-8 values. |
| QueryForms.TextReads | crates/gilti/src/daemon.rs:687-694 | A text sent with any byte raw or escaped and any space as a plus sign is read as itself exactly when it is NUL-free UTF-8. |
| QueryForms.FieldAdded | crates/gilti/src/daemon.rs:652-682 | A parameter, the format included, is recorded under its name exactly when its value can be read and the name is new. |
| QueryForms.VariableNames | crates/gilti/src/daemon.rs:661-673 | Each of the eleven variables has its own name, and no other name stands for one. |
| QueryForms.UnknownRefused | crates/gilti/src/daemon.rs:673-673 | A parameter of any other name refuses the request. |
| QueryForms.QueryReads | crates/gilti/src/daemon.rs:645-685 | A query of any parameters in any order and spelling is accepted exactly when every value can be read and none comes twice, and then each has the value it was sent with. |
| Decimal.ParsedDigits | crates/gilti/src/endpoints/log.rs:24-27 | A printed number parses back exactly when it fits the type. |
| Decimal.ParsedExactly | crates/gilti/src/endpoints/log.rs:24-27 | A number is parsed exactly from an optional plus sign, any zeros and the number as printed, if it fits. |
| LogQuery.CheckRange | crates/gilti/src/endpoints/log.rs:158-173 | A range is valid exactly when it has a selector and every selector is made of `HEAD`, refs or full object ids. |
| LogQuery.Suffix | crates/gilti/src/endpoints/log.rs:64-102 | The suffix is the query of the changed offset and toggles, with the untouched whitespace setting and search. |
| LogQuery.ParametersRead | crates/gilti/src/daemon.rs:645-694 | Printed parameters are all recorded, under their own variables, exactly when their values can be sent. |
| LogQuery.SuffixRoundTrip | crates/gilti/src/endpoints/log.rs:22-103 | Reading a printed suffix gives back offset, flags, whitespace setting and search exactly when the search is NUL-free and, for a range, valid; otherwise the request is refused. |
| LogRange.SelectorsRead | crates/gilti/src/endpoints/log.rs:160-160 | The selectors of a text are its words, whatever the white space around them. |
| LogRange.EndsRead | crates/gilti/src/endpoints/log.rs:168-168 | The ends of a selector are what stands between its double dots. |
| LogRange.EndsJoined | crates/gilti/src/endpoints/log.rs:168-168 | Splitting a selector at its double dots loses nothing, whatever it is. |
| LogRange.RangeReads | crates/gilti/src/endpoints/log.rs:158-173 | A range is valid exactly when it has a selector and every end is `HEAD`, begins with `refs/` or is 40 or 64 hex digits. |
| SearchForms.RequestReads | crates/gilti/src/endpoints/log.rs:23-51 | A request in any order and spelling yields a log query exactly when its parameters say that query: the offset, each flag as `0`, `1` or nothing, and the kind and text of the search. |
| SearchForms.FormReads | crates/gilti/src/endpoints/log.rs:230-243 | The search form finds what was typed, however the browser writes it, exactly for NUL-free UTF-8 and, in a range, for valid ones. |
| LfsStore.ObjectPathInjective | crates/git/src/lfs.rs:174-176 | Distinct objects have distinct paths. |
| LfsStore.TempPathInjective | crates/git/src/lfs.rs:104-108 | A temporary path determines its object and its nonce. |
| LfsStore.StepKeeps | crates/git/src/lfs.rs:64-162 | Every step of every upload and reader keeps the store sound. |
| LfsStore.RunKeeps | crates/git/src/lfs.rs:64-162 | Over any interleaving of steps the store stays sound: each published object is within the limit and hashes to its name. |
| LfsStore.ReachableSound | crates/git/src/lfs.rs:64-162 | So it is in every state that a server can reach from whatever sound objects a former one left. |
| LfsStore.TemporariesDisjoint | crates/git/src/lfs.rs:104-108 | No two uploads share a temporary file, and none is a published object. |
| LfsStore.ReportedErrorIsClean | crates/git/src/lfs.rs:147-150 | The temporary file of an upload that reported an error is there exactly when the upload is a `write` that failed to write and left it. |
| LfsStore.FailedWriteLeaves | crates/git/src/lfs.rs:81-81 | A failed `write` leaves a temporary file exactly when it got as far as creating one, or found one there. |
| LfsStore.WriteLeaks | crates/git/src/lfs.rs:81-81 | `write` reports a failed write and leaves the temporary file. |
| LfsStore.OnlySuccessPublishes | crates/git/src/lfs.rs:139-145 | A published object changes only when an upload of it succeeds, and then holds what that upload received. |
| LfsStore.PublishedStays | crates/git/src/lfs.rs:139-145 | A published object stays published over every run, with the same bytes unless digests collide. |
| LfsStore.DeclaredLength | crates/git/src/lfs.rs:152-162 | The length `open_stream` declares is the length of the file it opens, even if the object is published anew in between. |
| LfsWriter.Store.ReceiveAll | crates/git/src/lfs.rs:112-132 | The read loop takes in the whole reader or stops at the first error or at the limit, touching only the temporary file. |
| LfsWriter.Store.Transfer | crates/git/src/lfs.rs:109-146 | From creating the temporary file to renaming it: either the object is published with what was received, or only the temporary file differs. |
| LfsWriter.Store.WriteStream | crates/git/src/lfs.rs:91-151 | The result and the whole new file system for every reader and every failing call; every statement is a step of the machine. |
| LfsWriter.Store.Write | crates/git/src/lfs.rs:64-86 | The same for `write`, including what a failed write leaves behind. |
| LfsEndpoint.LinksLead | crates/gilti/src/endpoints/lfs.rs:56-102 | The links of a batch response dispatch to the operations they are offered for. |
| LfsEndpoint.BatchActionable | crates/gilti/src/endpoints/lfs.rs:146-198 | A batch is answered object by object, in order, and the links of every offer are accepted. |
| LfsEndpoint.BatchAnswered | crates/gilti/src/endpoints/lfs.rs:103-205 | For each object, from the files alone: a download is offered exactly when the object is there with its size, an upload exactly when it is missing, the operation is `upload` and writes are enabled; otherwise 422, 404 or 403 by the condition that fails. Other requests get 413 or 400. |
| LfsEndpoint.Dispatched | crates/gilti/src/endpoints/lfs.rs:70-93 | Which path and verb reach which operation, exactly; all paths outside `objects/` get 404. |
| LfsEndpoint.DispatchRefuses | crates/gilti/src/endpoints/lfs.rs:83-101 | Which refusal any other request below `objects/` gets: 400, 403 or 405, exactly. |
| LfsEndpoint.VerifyAnswered | crates/gilti/src/endpoints/lfs.rs:261-294 | A verify request is confirmed exactly for the object of its path, there with the size asked for; the other answers by their conditions. |
| LfsEndpoint.DownloadStarts | crates/git/src/lfs.rs:152-162 | A download measures an object exactly when a file stands where it belongs, and with its length. |
| LfsEndpoint.RequestBegins | crates/gilti/src/endpoints/lfs.rs:89-98 | A request begins an upload or measures a download exactly when its path and verb ask for it; no other touches the store. |
| LfsEndpoint.UploadReplies | crates/gilti/src/endpoints/lfs.rs:239-259 | Each outcome of an upload has its own status, and 200 stands for success alone. |
| LfsEndpoint.UploadFaulted | crates/git/src/lfs.rs:91-146 | Within the limit, a failing call is answered by 500: before the digest is looked at by all calls but the rename. |
| LfsEndpoint.UploadBroken | crates/git/src/lfs.rs:112-132 | A reader that breaks off is a storage fault, never the end of the object. |
| LfsEndpoint.WriteAnswered | crates/git/src/lfs.rs:64-86 | `write` stores a body exactly when it is within the limit, hashes to its name and no call fails; the errors by their conditions. |
| LfsEndpoint.UploadAnswered | crates/gilti/src/endpoints/lfs.rs:228-260 | Where nothing fails, an upload is answered by its size and its digest alone, however it is cut into reads. |
| LfsEndpoint.ServeIsRun | crates/gilti/src/endpoints/lfs.rs:56-102 | Serving requests is a run of the store machine. |
| LfsEndpoint.DisabledNeverWrites | crates/gilti/src/endpoints/lfs.rs:93-98 | With uploads disabled no run of requests changes the store. |
| LfsEndpoint.UploadedStays | crates/gilti/src/endpoints/lfs.rs:228-260 | Once an upload has succeeded its object is held at the end of every later run. |
| LfsEndpoint.HeldIsServed | crates/gilti/src/endpoints/lfs.rs:261-294 | A held object is offered for download, and verified for exactly its own size. |
| LfsEndpoint.DownloadStreams | crates/gilti/src/endpoints/lfs.rs:206-227 | A download declares and streams the held bytes whatever happens between its two file-system calls. |
| LfsEndpoint.UploadedIsServed | crates/gilti/src/endpoints/lfs.rs:56-294 | After a successful upload, every later batch, verify and download request for that object and size succeeds, with a Content-Length equal to the bytes streamed. |
| Subsequence.FillTable | crates/gilti/src/components/diff.rs:237-246 | Every entry of the table is the value of the recurrence for the two remaining lines. |
| Subsequence.CommonSubsequence | crates/gilti/src/components/diff.rs:231-261 | Below 200 characters the result is a common subsequence and none is longer; otherwise it is empty. |
| Subsequence.NoneLonger | crates/gilti/src/components/diff.rs:237-246 | No common subsequence is longer than the table says. |
| Subsequence.CommonIsLongest | crates/gilti/src/components/diff.rs:247-260 | The walk through the table yields a longest common subsequence. |
| Highlight.HighlightedSegments | crates/gilti/src/components/diff.rs:263-280 | The segments join to the line, are non-empty and alternate, and leave unmarked what was matched of the common characters. |
| Highlight.TakenIsMost | crates/gilti/src/components/diff.rs:263-280 | The greedy matcher takes the longest prefix of the common characters that the line contains at all. |
| Highlight.HighlightPair | crates/gilti/src/components/diff.rs:203-229 | Both cells of a changed row reproduce their lines, leave the same text unmarked, and below 200 characters mark the fewest characters possible. |
| SideRows.Flush | crates/gilti/src/components/diff.rs:181-188 | One row per pair, and gaps only behind the shorter side. |
| SideRows.Build | crates/gilti/src/components/diff.rs:172-201 | The rows of a hunk are its blocks, paired, with context on both sides. |
| SideRows.ColumnsConserved | crates/gilti/src/components/diff.rs:172-201 | Without gaps the left column is exactly the lines not added, the right exactly those not removed, in order. |
| SideRows.PairedAt | crates/gilti/src/components/diff.rs:181-188 | Row k of a block holds the k-th removal and the k-th addition. |
| SideRows.BlockRows | crates/gilti/src/components/diff.rs:189-200 | A maximal block of changes is paired as a whole, before the context line that ends it. |
| Calendar.CivilSteps | crates/gilti/src/components/relative_time.rs:92-103 | Every day has a valid date, and consecutive days have consecutive dates. |
| Calendar.Epoch | crates/gilti/src/components/relative_time.rs:91-103 | Day 0 is 1970-01-01. |
| Calendar.CivilCounts | crates/gilti/src/components/relative_time.rs:92-103 | Counting days year by year and month by month up to the computed date gives the day back, for every day. |
| Calendar.CivilInverts | crates/gilti/src/components/relative_time.rs:92-103 | Every valid date is the date of its day number. |
| Timestamp.FieldsInRange | crates/gilti/src/components/relative_time.rs:76-82 | On the clamped range the year has four digits and every field its RFC 3339 range. |
| Timestamp.Rfc3339Reads | crates/gilti/src/components/relative_time.rs:76-89 | The text is a 20-character date-time of section 5.6 of RFC 3339; it reads back as the timestamp itself in the years 1 to 9999, and is their first or last second otherwise. |
| Timestamp.Rfc3339Ordered | crates/gilti/src/components/relative_time.rs:76-89 | Strings compare as the timestamps do, strictly, unless both lie beyond the same end (section 5.1 of RFC 3339). |
| HistoryLog.ReadRecord | crates/git/src/history.rs:252-283 | The row of one record, or the error that refuses the log. |
| HistoryLog.Parse | crates/git/src/history.rs:245-287 | The cursor loop reads record after record until no mark is left, with all four ways to fail. |
| HistoryLog.OidsFull | crates/git/src/history.rs:274-278 | Whatever the text, every commit of an accepted log has a full object name. |
| HistoryLog.RecordRefused | crates/git/src/history.rs:269-278 | A record is refused as invalid exactly without an end, and for its object name exactly if that is none. |
| HistoryLog.RowReadsBack | crates/git/src/history.rs:252-268 | The graph cells of a row come back exactly when its own cell is not empty below continuations and, for the first row, the graph does not open with an empty line. |
| HistoryLog.LogRoundTrip | crates/git/src/history.rs:192-287 | A printed log parses to the same commits in order, and to the same rows exactly when every row is kept. |
| Statistics.CountEntries | crates/git/src/history.rs:401-430 | The totals of one record, by the recursive count over its fields. |
| Statistics.Parse | crates/git/src/history.rs:373-435 | The cursor loop reads record after record into the table, or fails for a missing, ill-encoded or malformed object name. |
| StatisticsFraming.RecordRefused | crates/git/src/history.rs:381-396 | Each of the three refusals has its condition: the name has no end, is ill-encoded, or is no object name. |
| StatisticsFraming.CountsItems | crates/git/src/history.rs:404-430 | Files, additions and deletions are those of the printed changes, whatever fields follow; names of renames are never counted, whatever they look like. |
| StatisticsFraming.EntryReads | crates/git/src/history.rs:406-421 | A printed change splits into its two counts and its path, with or without the newline in front. |
| StatisticsReading.CutAtField | crates/git/src/history.rs:397-400 | A name that ends in the marker cuts its record short there, and what follows is read as the head of another. |
| StatisticsReading.RecordReadsItems | crates/git/src/history.rs:379-433 | One printed record is read change by change, whatever its names: a disguised rename starts another record, any other marked name refuses the output. |
| StatisticsReading.PrintedReads | crates/git/src/history.rs:351-435 | The result for every printed output, with no name of a file excluded. |
| StatisticsRoundTrip.StatisticsAccepted | crates/git/src/history.rs:388-396 | An output is accepted exactly when every name with the marker is that of a rename from it to a full object name. |
| StatisticsRoundTrip.StatisticsRoundTrip | crates/git/src/history.rs:351-435 | Provided no such rename leads to a name that the table should hold, the table is the printed one exactly when no file name ends in the marker. |
| StatisticsFraming.ExpectedEntries | crates/git/src/history.rs:431-431 | With distinct object names the table has one entry per commit, with its totals, and nothing else. |
| StatisticsRoundTrip.DisguisedRename | crates/git/src/history.rs:379-396 | A rename from a name with the marker to an object name, anywhere in an accepted output, is reported as a commit of that name. |
| StatisticsExact.StatisticsExactly | crates/git/src/history.rs:351-435 | For distinct commits and any file names: the table is the printed one exactly when each marked name is that of a rename that ends its record and leads to a later commit, or to an earlier one without changes. |
| CgiHead.ParseHead | crates/git/src/backend.rs:301-335 | Status and headers of a head line by line, a redirect when a location comes with status 200, or an error. |
| CgiHead.ParseHeaders | crates/git/src/backend.rs:274-299 | The outcome and the reads left for every schedule of reads, failures and end of stream. |
| CgiBlankLine.ReadStops | crates/git/src/backend.rs:280-287 | As long as no head is complete and the limit is kept, a failing read is reported as such and the end of the stream as an invalid response. |
| CgiChunking.HeadOfBody | crates/git/src/backend.rs:301-335 | The bytes read past the head do not influence status and headers. |
| CgiChunking.ChunkingExact | crates/git/src/backend.rs:274-299 | Every chunking yields the head and its body exactly when the limit leaves room for the head and every prefix within one read of it is cut there; every chunking is refused exactly when the head exceeds the limit by a whole read; a malformed head is refused in any case. |
| CgiChunking.ChunkingSame | crates/git/src/backend.rs:274-299 | All chunkings give the same status and headers, or the same error, exactly in these two cases. |
| CgiChunking.BufferBounded | crates/git/src/backend.rs:288-297 | At most 1024 bytes beyond the limit are ever taken in. |
| CgiBlankLine.CrlfStable | crates/git/src/backend.rs:289-294 | The first CRLF pair ends the head in every prefix that holds it, whatever the body holds. |
| CgiBlankLine.CrlfChunking | crates/git/src/backend.rs:274-299 | A head with CRLF line ends and no earlier blank line, whatever its body: always read within the limit, always refused a whole read beyond it, depending on the reads in between. |
| CgiBlankLine.LfChunking | crates/git/src/backend.rs:289-298 | The same for a head with LF line ends, which is always read only if, besides, no CRLF pair ends within one read behind it. |
| CgiBlankLine.BlankLineKind | crates/git/src/backend.rs:289-294 | Every stream with a blank line has a head of one of the two kinds, by the first blank line in it. |
| CgiBlankLine.BlankLineMissing | crates/git/src/backend.rs:285-298 | A stream without a blank line is refused however it arrives. |
| CgiRoundTrip.LineReads | crates/git/src/backend.rs:307-325 | A header or status line reads alike with and without its carriage return. |
| CgiRoundTrip.HeadAccepted | crates/git/src/backend.rs:307-323 | A head is refused exactly when one of its lines cannot be read. |
| CgiRoundTrip.ReadableExactly | crates/git/src/backend.rs:307-323 | A line is readable exactly when it has a colon, both sides are UTF-8 and, for a status in any case, its value has a code. |
| CgiRoundTrip.CodeExactly | crates/git/src/backend.rs:317-322 | A value has a code exactly when its first word spells a number from 100 to 599. |
| CgiRoundTrip.StatusInRange | crates/git/src/backend.rs:317-322 | A printed status line is readable exactly for these codes. |
| Whitespace.TrimStartText | crates/git/src/backend.rs:315-315 | Trimming drops exactly the characters with the property White_Space at the start. |
| Whitespace.TrimEndText | crates/git/src/history.rs:273-273 | The same at the end. |
| CgiRoundTrip.HeadRoundTrip | crates/git/src/backend.rs:301-335 | A printed head parses to its trimmed fields and its last status, except that 200, printed or by default, becomes 302 exactly when some field is named `location` in any case. |
| CgiRoundTrip.SaidInFull | crates/git/src/backend.rs:316-325 | The last status line decides the status; every field is a header, in order, less leading white space. |
| CgiRoundTrip.TrimmedKept | crates/git/src/backend.rs:313-315 | Headers come back unchanged exactly when no value opens with white space. |
| CgiRoundTrip.PrintedNoBlankLine | crates/git/src/backend.rs:289-294 | A printed head holds no blank line of either kind. |
| CgiRoundTrip.ResponseRoundTrip | crates/git/src/backend.rs:274-335 | A printed response comes back with its status, redirect included, its headers and whole body under every chunking exactly when the limit leaves room for its head, under none exactly when its head exceeds the limit by a whole read, and with an answer that depends on the reads otherwise. |
| BackendBody.Body.BeginWait | crates/git/src/backend.rs:67-77 | The child moves to the wait task once, and only from the body. |
| BackendBody.Body.Drop | crates/git/src/backend.rs:80-89 | A child still held is moved to the kill task. |
| BackendBody.Body.PollRead | crates/git/src/backend.rs:91-122 | The whole new state and the answer of a poll, for every answer of the pipe and of the receiver. |
| BackendBody.PollAnswers | crates/git/src/backend.rs:97-121 | A poll fails exactly when the prefix is read and the pipe failed, or the process, its wait or its task did; it is pending exactly when what it asks is, or when the empty read starts the wait, which alone wakes the caller. |
| BackendBody.PollFills | crates/git/src/backend.rs:97-121 | A poll hands over as much of the prefix as fits, then what the pipe read, and nothing at the end. |
| BackendBody.PollMoves | crates/git/src/backend.rs:67-77 | A poll starts the wait exactly when it wakes its caller while the body holds the child, and takes bytes only by handing them over. |
| BackendBody.RunConserves | crates/git/src/backend.rs:97-121 | Over every run, what was delivered and what is left make up the prefix and the output, in order. |
| BackendBody.StepKeepsDrained | crates/git/src/backend.rs:113-119 | One poll starts waiting too early exactly when it reads nothing while output is left. |
| BackendBody.RunKeepsDrained | crates/git/src/backend.rs:97-121 | Over every run the child has one owner, and waiting starts too early exactly when some poll read nothing. |
| BackendBody.CleanEnd | crates/git/src/backend.rs:97-121 | A clean end means the process succeeded and, exactly when no poll read nothing, that every byte was delivered; polls with room never read nothing. |
| BackendBody.Completes | crates/git/src/backend.rs:97-121 | One answered poll more than there are bytes delivers them all and has the process waited for; the next ends the body cleanly exactly when the process succeeded, and with an error otherwise. |
| BackendBody.RunThenDrop | crates/git/src/backend.rs:80-89 | Wherever a run stops, the delivered bytes open the response, the child has one owner, and after the drop that owner is one task. |

## Left out

- StatisticsRoundTrip.StatisticsRoundTrip: assumes that no disguised rename leads to a name of the table or of a printed commit; `StatisticsExact.StatisticsExactly` drops the assumption for commits with distinct names and a table that starts empty, as `parse_statistics` starts it.
- HistoryLog.LogRoundTrip: the printed object names carry no white space, as `%H` never does; trimming is modelled in `Parse`, but what a padded name does to the next record is not stated.
- BackendBody.CleanEnd: the runs also contain polls after the receiver has answered, where the model answers again and the source would panic; the theorems hold for these runs too, but the panic itself is not modelled.
- Calendar.CivilCounts: days are unbounded integers; `i64` overflow within 719,468 days of the largest day is not modelled, and `rfc3339` clamps long before it.
- LfsStore.TemporariesDisjoint: one process; the 64-bit nonce does not wrap, and another process with the same id and nonce is not modelled.
- LfsStore.ReportedErrorIsClean: removing a temporary file succeeds, as the source assumes by ignoring the result.
- Statistics.CountEntries: sums wrap at 64 bits as in a release build; a debug build would panic instead.
- SHA-256 is any function of the bytes; where digests matter, theorems assume that the one object's digest does not collide.
- The file system is a map from paths to contents: directories other than their creation failing, permissions, and the `is_file` checks of `present` and `metadata` are not part of the model.
- `LfsStore::open`, `verify_repository_path`, `verify_creation_parent` and other `canonicalize` checks depend on the real file system.
- The JSON of LFS requests and replies, the URL prefix of batch links, and HTTP headers other than Content-Length.
- `HttpBackend::execute`, the environment of the subprocess, feeding its standard input and reaping it.
- Everything that only reads Git objects through libgit2, and `statistics_from_git2`.
- The rest of `daemon.rs`: TLS, host checks, body limits, `valid_format`, static assets and rendering.
- Markup, style sheets, scripts, charts, period labels, relative time labels, configuration and argument parsing.
