# readiscover, modelled in Dafny

readiscover is a tutor for arXiv papers. A browser client takes an arXiv id or
URL and sends it to a Cloudflare worker. The worker:

1. downloads the paper's source archive;
2. reads the tar archive;
3. picks the main LaTeX document;
4. extracts the title and the figures;
5. has a language model plan a sequence of concepts and write a greeting;
6. keeps the session in an in-memory registry.

Each later answer from the learner is one turn. The worker records it, asks
the tutor for a reply, and may advance the concept index. It also discloses
the figures the reply mentions. When the last concept is complete, the
session is dropped.

This project models that core:

| file | what it models |
|---|---|
| `text.dfy` | the JavaScript string primitives the worker relies on (`trim`, `\s`, `includes`, `indexOf`, `toLowerCase`, the last-dot split) |
| `patterns.dfy` | the global regular expressions as deterministic matchers, with the left-to-right `exec` scan proved sound, ordered and complete |
| `tar.dfy` | `parseTar`: the ustar header layout of POSIX.1 (IEEE Std 1003.1, "pax" utility), an imperative cursor loop proved equal to a recursive reading of the archive |
| `maindoc.dfy` | `findMainTexFile`, the three-tier search |
| `latex.dfy` | `extractLatexStructure`: the `.tex` corpus, the brace-depth title scan, the cleanup chain, and the figure collection and resolution |
| `registry.dfy` | the session registry: a class over a `map`, with the strict 30-minute sweep |
| `disclosure.dfy` | `extractReferencedFigures` |
| `answer.dfy` | `handleSessionAnswer` |
| `start.dfy` | `handleSessionStart` |
| `worker.dfy` | the request entry point: sweep, then route |
| `client.dfy` | `extractArxivId` and the markup choice of `renderFigure` from the browser client |
| `http.dfy` | the request and response shapes |
| `wrappers.dfy` | `Option` and `Result` |

The handlers are modelled twice, on purpose:

- as methods that update a `SessionStore` in place, as the JavaScript mutates
  its `Map`;
- as functions from the registry before a request to the response and the
  registry after it.

Each method's postcondition ties it to its function. The properties are
proved about the functions.

The services whose code is not part of this model are parameters:

- the download and decompression, the UTF-8 decoder and the base64 encoder;
- the concept summariser, the greeting writer and the tutor;
- the clock and the fresh UUID.

## Model

| member | source | states |
|---|---|---|
| Text.LowerChar | main.js:119-120 | an ASCII upper-case letter becomes the lower-case letter 32 code points above it; every other character is unchanged |
| Text.LowerFacts | worker/src/arxiv-handler.js:73 | `toLowerCase` keeps the length, leaves no ASCII upper-case letter, changes exactly the upper-case positions, and is idempotent |
| Text.IndexOf | worker/src/arxiv-handler.js:162 | `indexOf` gives the first occurrence at or after `from`; none is missed before it, and `None` means there is no occurrence |
| Text.ContainsAt | worker/src/arxiv-handler.js:124 | any occurrence of the pattern makes `includes` true |
| Text.ContainsExtend | worker/src/arxiv-handler.js:155 | an occurrence survives putting text on either side |
| Text.ContainsTrans | worker/src/session-answer.js:64-65 | containment is transitive |
| Text.FindChar | worker/src/arxiv-handler.js:188 | a found index holds the character and lies at or after `from` |
| Text.FindCharFirst | worker/src/arxiv-handler.js:188 | the found index is the first occurrence; `None` means the character does not occur |
| Text.LeadingSpaces | worker/src/arxiv-handler.js:52 | the leading white-space run ends at a non-space character |
| Text.TrailingSpaces | worker/src/arxiv-handler.js:52 | the trailing white-space run starts after a non-space character |
| Text.SpaceRuns | worker/src/arxiv-handler.js:52 | both counted runs consist of ECMAScript white space |
| Text.TrimKeepsMiddle | worker/src/arxiv-handler.js:52 | `Trim` leaves no white space at either end and keeps the middle verbatim: the result is the slice after the leading run, and everything cut from either end is white space |
| Text.TrimNoEdges | worker/src/arxiv-handler.js:192 | text with no white space at either end is left unchanged by `trim` |
| Text.TrimFacts | worker/src/arxiv-handler.js:192 | trimming adds no character and creates no run of white space |
| Text.RemoveFacts | worker/src/arxiv-handler.js:52 | `Remove` leaves no `c` and keeps every other character exactly as often as it occurred (the multiset with `c` deleted), and text without `c` is unchanged |
| Text.RemoveConcat | worker/src/arxiv-handler.js:52 | removal works piece by piece, so it keeps the order of what remains |
| Text.RemoveOne | worker/src/arxiv-handler.js:52 | on one character, `c` vanishes and any other character stays |
| Text.AfterLastDot | worker/src/arxiv-handler.js:73 | the extension has no dot, ends the name, and is preceded by a dot unless it is the whole name |
| Text.AfterLastDotAt | worker/src/arxiv-handler.js:73 | the extension is exactly what follows the last dot |
| Text.Decimal | worker/src/arxiv-handler.js:248 | the rendering of a count is a non-empty string of digits |
| Text.DecimalRoundTrip | worker/src/arxiv-handler.js:248 | reading the rendering back gives the count, so distinct figure counts give distinct synthetic labels |
| Patterns.SeparatorRunEnd | worker/src/session-answer.js:118 | `[:\s]+` takes the maximal run of colons and white space |
| Patterns.RefRunEnd | worker/src/session-answer.js:118 | `[a-zA-Z0-9_-]+` takes the maximal run of label characters |
| Patterns.BraceGroup | worker/src/arxiv-handler.js:206-208 | `\{([^}]+)\}` matches a non-empty group up to the first `}`; no match means no `}` closes a non-empty group |
| Patterns.AfterOptionsFacts | worker/src/arxiv-handler.js:206 | the optional `[...]` part: without a `[` nothing is skipped; with one, the match continues just after the first `]`, and fails iff no `]` follows |
| Patterns.MatchAt | worker/src/arxiv-handler.js:206-208 | a match starts where it is asked to, ends inside the text and has a non-empty capture |
| Patterns.ScanSound | worker/src/arxiv-handler.js:214-219 | every hit of the `exec` loop (the function `Scan`) is a genuine match at its own start |
| Patterns.ScanOrdered | worker/src/arxiv-handler.js:214-219 | the hits come in increasing order and do not overlap |
| Patterns.ScanComplete | worker/src/arxiv-handler.js:214-219 | every position where the expression matches lies inside some hit, so no match is missed |
| Patterns.MatcherOf | worker/src/session-answer.js:118 | each expression yields a well-formed matcher |
| Patterns.MatchTextsAre | worker/src/arxiv-handler.js:228-229 | `match` with a global expression gives, for each hit in order, the full text the hit spans |
| Patterns.MatchesSound | worker/src/arxiv-handler.js:228-229 | every hit of a pattern is a match of that pattern inside the text |
| Patterns.MatchesComplete | worker/src/session-answer.js:121-137 | every match of a pattern lies inside one of the hits |
| Tar.ParseOctalReads | worker/src/arxiv-handler.js:60 | `parseInt(s, 8)` skips leading white space and one sign, fails iff no octal digit follows, and otherwise reads the maximal digit run, negated after a minus |
| Tar.SizeField | worker/src/arxiv-handler.js:60 | an empty or unparseable size reads as 0, and an unsigned field reads as a non-negative size |
| Tar.OctalValueOfOctal | worker/src/arxiv-handler.js:58-60 | octal digits read back to the value they encode |
| Tar.OctalValueLeadingZeros | worker/src/arxiv-handler.js:58-60 | leading zeros do not change the value of an octal field |
| Tar.SizeFieldRoundTrip | worker/src/arxiv-handler.js:58-60 | a size a tar writer stores in octal, zero-padded and followed by any non-digit terminator, reads back as that size |
| Tar.NegativeSizeStallsCursor | worker/src/arxiv-handler.js:97-98 | as written, the size field "-1000" reads as -512 and the next header offset equals the current one |
| Tar.PaddedSize | worker/src/arxiv-handler.js:97 | the padding is a multiple of 512 that covers the content by less than one block; non-positive sizes pad to 0 |
| Tar.NextOffset | worker/src/arxiv-handler.js:96-98 | each step passes the header and the whole content by a whole number of blocks, overshooting by less than one block, so header offsets stay multiples of 512 |
| Tar.PaddedSizeAgrees | worker/src/arxiv-handler.js:97 | the corrected padding equals `Math.ceil(size / 512) * 512` for every size above -512 |
| Tar.ContentSlice | worker/src/arxiv-handler.js:70 | `slice` clamps at the end of the buffer: a declared size past the end yields shorter content, not an error |
| Tar.FieldTextFacts | worker/src/arxiv-handler.js:51-52 | a header field is the decoded text with its NULs removed, cut to the slice after the leading white space, with only white space cut at either end |
| Tar.ExtensionsDisjoint | worker/src/arxiv-handler.js:74-75 | no extension is both a text and an image extension |
| Tar.Classify | worker/src/arxiv-handler.js:73-91 | the extension is the lower-cased text after the last dot; text iff a text extension, with decoded content; image iff an image extension, with the bytes and their base64 |
| Tar.RecordAt | worker/src/arxiv-handler.js:63-94 | a header yields a record iff its size is positive and its type flag is not `'5'`; the record carries the header's name and size, and the content sliced after the header |
| Tar.ParseTar | worker/src/arxiv-handler.js:42-102 | the cursor loop yields exactly the records of the recursive reading `Entries`, in archive order, stopping when under 512 bytes remain or at an empty name |
| Tar.ClassifyWellFormed | worker/src/arxiv-handler.js:69-93 | a record built from a trimmed non-empty name and a positive size is well formed |
| Tar.EntriesWellFormed | worker/src/arxiv-handler.js:46-99 | every record of the archive is well formed |
| Tar.EntriesBounded | worker/src/arxiv-handler.js:46-99 | an archive yields no more records than it has 512-byte blocks |
| Tar.SizeFieldOfReadsBack | worker/src/arxiv-handler.js:57-60 | through a decoder that reads ASCII bytes as themselves, the size field a writer stores for n (11 zero-padded octal digits, then a NUL) reads back as n |
| Tar.ZeroFieldIsEmpty | worker/src/arxiv-handler.js:51-56 | a name field of NUL bytes reads as the empty name, so the loop stops there |
| Tar.ReadsOneEntry | worker/src/arxiv-handler.js:51-98 | through a decoder that reads ASCII bytes as themselves, a header a tar writer produced (size as 11 zero-padded octal digits and a NUL) reads back its name and its size, yields that entry's record, and moves the cursor exactly past that entry's blocks |
| Tar.WriteThenRead | worker/src/arxiv-handler.js:46-99 | through a decoder that reads ASCII bytes as themselves, entries written one after another from any header offset, followed by a zero name field or less than a block, read back as one record per entry with its name, size and content, in order |
| Tar.ArchiveRoundTrip | worker/src/arxiv-handler.js:42-102 | through a decoder that reads ASCII bytes as themselves, an archive of N written entries followed by a zero end-of-archive block reads back as N records with the same paths, sizes and content, in order |
| MainDocument.FirstIndex | worker/src/arxiv-handler.js:138 | `find` returns the first file satisfying the test; `None` means no file does |
| MainDocument.FirstNamed | worker/src/arxiv-handler.js:133 | `find` with `endsWith(name)` on the lower-cased path gives the first file with that name, or establishes that none has it |
| MainDocument.FirstByNameEarliest | worker/src/arxiv-handler.js:131-135 | the name tier tries `main.tex`, then `paper.tex`, then `manuscript.tex`, and returns the first file for the first name any file has |
| MainDocument.LowerEndsWithTex | worker/src/arxiv-handler.js:133 | a path whose lower case ends in `.tex` has the extension `tex` |
| MainDocument.CommonNameEndsInTex | worker/src/arxiv-handler.js:131 | each conventional name ends in `.tex` |
| MainDocument.HasNameIsTex | worker/src/arxiv-handler.js:131-135 | a file found by name is a `.tex` file |
| MainDocument.MainTexFileTiers | worker/src/arxiv-handler.js:120-139 | `FindMainTexFile` takes the first declaring file, else the first `main.tex`, else the first `paper.tex`, else the first `manuscript.tex`, else the first `.tex` file |
| MainDocument.MainTexFileFound | worker/src/arxiv-handler.js:120-139 | nothing is found iff no file is `.tex`, and what is found is always `.tex` |
| Latex.TexFilesMembers | worker/src/arxiv-handler.js:154 | `TexFiles` keeps exactly the `.tex` text files of the archive: every kept file is one, and every one is kept |
| Latex.TexFilesConcat | worker/src/arxiv-handler.js:154 | `TexFiles` works file by file, keeping a `.tex` text file and dropping any other, so it keeps order and multiplicity |
| Latex.JoinSectionsContains | worker/src/arxiv-handler.js:155 | the corpus `JoinSections` contains the text of every `.tex` file joined into it |
| Latex.SectionContains | worker/src/arxiv-handler.js:155 | one file's section contains its text |
| Latex.MatchingBrace | worker/src/arxiv-handler.js:165-180 | the first `}` reached at brace depth 0 after `\title{`; `None` means there is none |
| Latex.ScanTitleEnd | worker/src/arxiv-handler.js:165-180 | the `braceCount` loop finds exactly the first `}` at depth 0 |
| Latex.DepthConcat | worker/src/arxiv-handler.js:169-180 | the brace depth of a text is the sum of the depths of its parts |
| Latex.NewlinesToSpaces | worker/src/arxiv-handler.js:186 | every newline becomes a space and nothing else changes |
| Latex.CollapseSpacesFacts | worker/src/arxiv-handler.js:186 | after `replace(/\s+/g, ' ')` (the function `CollapseSpaces`) the only white space is single plain spaces |
| Latex.CollapseHead | worker/src/arxiv-handler.js:186 | one step of the collapse emits one character, and a white-space run is followed by no white space |
| Latex.ConsSpaceFacts | worker/src/arxiv-handler.js:192 | a character put before a collapsed text keeps it collapsed unless both are white space |
| Latex.CollapseSpacesChars | worker/src/arxiv-handler.js:192 | collapsing adds no character except the space |
| Latex.CollapseSpacesKeeps | worker/src/arxiv-handler.js:192 | text whose only white space is single plain spaces is left unchanged by the collapse |
| Latex.LetterRunEnd | worker/src/arxiv-handler.js:188-190 | `[a-zA-Z]+` stops at the first non-letter |
| Latex.LetterRunFacts | worker/src/arxiv-handler.js:188-190 | the run consists of letters |
| Latex.CommandGroup | worker/src/arxiv-handler.js:188 | a command group lies inside the text |
| Latex.CommandGroupShape | worker/src/arxiv-handler.js:188 | a group is `\`, one or more letters, `{`, text without `}`, then `}` |
| Latex.UnwrapCommandsChars | worker/src/arxiv-handler.js:188 | unwrapping `\cmd{x}` to `x` (the function `UnwrapCommands`) adds no character |
| Latex.UnwrapCommandsPlain | worker/src/arxiv-handler.js:188 | text without a backslash is left unchanged |
| Latex.DropCommandsChars | worker/src/arxiv-handler.js:190 | deleting command names (the function `DropCommands`) adds no character |
| Latex.DropCommandsPlain | worker/src/arxiv-handler.js:190 | text without a backslash is left unchanged |
| Latex.CleanTitleIsClean | worker/src/arxiv-handler.js:186-192 | the cleaned title has no newline and no brace, no white space at either end, and no run of white space |
| Latex.CleanTitleKeepsCleanText | worker/src/arxiv-handler.js:186-192 | cleanup keeps the words: already-clean text without a backslash comes out unchanged |
| Latex.NestedGroupScan | worker/src/arxiv-handler.js:162-180 | in `\title{a{b}c}` the scan skips the nested group and closes at the outer brace |
| Latex.NestedGroupTitle | worker/src/arxiv-handler.js:162-192 | the title of `\title{a{b}c}` is `abc`: the nested braces are dropped and every word is kept |
| Latex.NestedTitleExample | worker/src/arxiv-handler.js:162-192 | `\title{A {nested} B}` gives the title "A nested B" |
| Latex.TitleInIsClean | worker/src/arxiv-handler.js:162-192 | a title found in one file is clean |
| Latex.TitleOfIsClean | worker/src/arxiv-handler.js:159-199 | the extracted title is always clean, including the empty title |
| Latex.NoTitleMarkerGivesEmpty | worker/src/arxiv-handler.js:147-199 | with no `\title{` in any file, the title is the empty string |
| Latex.FindTitle | worker/src/arxiv-handler.js:162-197 | the per-file search gives the cleaned text between `\title{` and its closing brace, or nothing |
| Latex.ExtractTitle | worker/src/arxiv-handler.js:159-199 | the loop takes the title of the first file whose title closes; files with an unclosed title are skipped |
| Latex.Window | worker/src/arxiv-handler.js:223-226 | the surrounding text is exactly the slice from 500 characters before the match to 500 after, clamped at both ends of the corpus |
| Latex.SecondMatch | worker/src/arxiv-handler.js:248-249 | `m ? m[1] : d` on a global match list: the default with no match, absent with exactly one, the second full match with two or more |
| Latex.StripDotSlash | worker/src/arxiv-handler.js:234 | a single leading `./` is removed, and nothing else changes |
| Latex.ImageMatchesIsContainment | worker/src/arxiv-handler.js:237-244 | the four-way image test is equivalent to "is an image and its path contains the reference" |
| Latex.FindImage | worker/src/arxiv-handler.js:237-244 | the first image in archive order that the reference resolves to; `None` means no image does |
| Latex.ResolvedMembers | worker/src/arxiv-handler.js:222-247 | a match is kept exactly when its reference, with a leading `./` removed, finds an archive image, and every kept match is one of the matches |
| Latex.ResolvedSnoc | worker/src/arxiv-handler.js:222-247 | the matches are filtered one by one in match order: a further match is appended after the kept ones when its reference finds an image and adds nothing otherwise |
| Latex.MatchTextsStart | worker/src/arxiv-handler.js:207-208 | every full `\caption`/`\label` match starts with the command and its `{` |
| Latex.SecondMatchStarts | worker/src/arxiv-handler.js:228-249 | a label or caption is absent, the default, or a full match of the command |
| Latex.FigureForFacts | worker/src/arxiv-handler.js:222-254 | `FigureFor` pushes a figure iff the match resolves; it carries that image's path, extension and base64; its label is `fig:k` exactly when the window has no `\label{` match, absent with one, the second match with two or more; the caption is `""` with no `\caption{` match, absent with one, the second match with two or more |
| Latex.FiguresFromSnoc | worker/src/arxiv-handler.js:246-254 | pushing a figure valid at the next index keeps every figure valid at its own index |
| Latex.FiguresOfResolved | worker/src/arxiv-handler.js:222-255 | `FiguresOf` gives exactly one figure per resolved match, in match order, and figure `k` is the one built from the `k`-th resolved match |
| Latex.CollectGraphics | worker/src/arxiv-handler.js:210-219 | the `exec` loop collects every `\includegraphics` match of the corpus, in order |
| Latex.BuildFigures | worker/src/arxiv-handler.js:222-255 | the per-match loop pushes one figure per resolved match, in match order |
| Latex.ExtractStructure | worker/src/arxiv-handler.js:144-258 | the extractor computes the corpus, the title loop and the figure loops of `StructureOf` |
| Latex.StructureFacts | worker/src/arxiv-handler.js:144-258 | `StructureOf` has a clean title, a corpus containing every `.tex` text, and exactly one figure per resolved `\includegraphics` match, in order |
| Disclosure.FindFigure | worker/src/session-answer.js:123-127 | a found figure is an inventory figure whose defined label matches the reference |
| Disclosure.LabelMatchesIsContainment | worker/src/session-answer.js:124-126 | the three-way label test is equivalent to containment |
| Disclosure.FigureRefCapture | worker/src/session-answer.js:118-122 | a figure-reference match captures a non-empty run of label characters that ends the match |
| Disclosure.RefsShape | worker/src/session-answer.js:118-122 | `Refs` gives, for each `exec` hit in order, its captured reference, a suffix of the hit made of label characters |
| Disclosure.DiscloseAllSnoc | worker/src/session-answer.js:121-137 | one more match extends the loop `DiscloseAll` by one `Step` |
| Disclosure.ThrowEscapes | worker/src/session-answer.js:123-127 | an error thrown by the search is the result of the whole loop |
| Disclosure.ExtractReferencedFigures | worker/src/session-answer.js:116-140 | the `exec` loop equals the fold `DiscloseAll` over all references, or gives the thrown error |
| Disclosure.DiscloseAllErrPrefix | worker/src/session-answer.js:121-137 | once thrown, later references cannot undo the error |
| Disclosure.DisclosedDistinctFromInventory | worker/src/session-answer.js:129-136 | disclosed labels are pairwise distinct, and each disclosed figure is an inventory figure with its label, caption, format and data |
| Disclosure.HasLabelSnoc | worker/src/session-answer.js:129-136 | the duplicate test after a push holds iff it held before or the pushed figure has the label |
| Disclosure.StepLabels | worker/src/session-answer.js:123-136 | one more reference adds to the disclosed labels exactly the labels it resolves to |
| Disclosure.DiscloseAllLabels | worker/src/session-answer.js:121-136 | a label is disclosed iff some reference resolves to a figure with that label |
| Disclosure.DiscloseAllPrefix | worker/src/session-answer.js:121-136 | the disclosures of the first references are a prefix of the final disclosures |
| Disclosure.DiscloseAllOrder | worker/src/session-answer.js:121-136 | disclosures come in order of the first reference resolving to them |
| Disclosure.FindFigureNeverThrows | worker/src/session-answer.js:123-127 | with every label defined, the search never throws |
| Disclosure.FindFigureNotFound | worker/src/session-answer.js:123-127 | with every label defined, a reference resolves to nothing iff no label contains it |
| Disclosure.FindFigureFirstContaining | worker/src/session-answer.js:123-127 | otherwise it resolves to the first figure whose label contains it |
| Disclosure.FindFigureThrows | worker/src/session-answer.js:126 | the search throws iff it reaches an undefined label before any matching figure |
| Disclosure.LabelledNeverFails | worker/src/session-answer.js:116-140 | with every label defined, the whole loop succeeds |
| Http.OrEmpty | worker/src/session-start.js:54 | `v \|\| ''` is the value when truthy, else the empty string |
| Registry.SessionStore.constructor | worker/src/index.js:9 | the registry starts empty |
| Registry.SessionStore.Sweep | worker/src/index.js:15-23 | the sweep keeps exactly the sessions of `Live` and deletes the expired ones, unchanged otherwise; afterwards every session is within the timeout |
| Registry.SweepIdempotent | worker/src/index.js:15-23 | a second sweep at the same time removes nothing more |
| Registry.BoundarySurvives | worker/src/index.js:12-18 | the timeout is 1,800,000 ms with a strict test: a session idle exactly that long survives, and one idle 1 ms longer is removed |
| Registry.StoreValidInsert | worker/src/session-start.js:81 | storing a valid session under its own id keeps the registry valid |
| Registry.SweepKeepsValid | worker/src/index.js:15-23 | sweeping keeps the registry valid |
| Answer.ShouldProgressTwoPhrases | worker/src/session-answer.js:64-66 | the case-insensitive advance test `ShouldProgress` is equivalent to looking for the two shorter phrases, since the first phrase contains "move to the next concept" |
| Answer.HandleAnswer | worker/src/session-answer.js:10-111 | the handler's response and registry are those of the turn function `AnswerTurn` |
| Answer.Converse | worker/src/session-answer.js:36-95 | the in-place updates after validation equal `TurnOn` on the named session |
| Answer.ReplyOverwrites | worker/src/session-answer.js:58-95 | the end of a turn (`Reply`) overwrites or deletes the session's entry |
| Answer.Conclude | worker/src/session-answer.js:73-100 | completion, disclosure and clean-up give the reply of the turn function |
| Answer.RejectionsChangeNothing | worker/src/session-answer.js:16-34 | a body that does not parse, a missing field or an unknown id leaves the registry unchanged, with status 400 or 404 for a parsed body |
| Answer.OtherSessionsUntouched | worker/src/session-answer.js:26-95 | a turn leaves every other session as it was |
| Answer.TutorFailureKeepsAnswer | worker/src/session-answer.js:36-55 | if the tutor throws, the answer stays in the history, the activity time is refreshed, the concept index is unchanged, and the status is 500 |
| Answer.SuccessfulTurn | worker/src/session-answer.js:57-95 | the reply is verbatim; the history gains exactly the answer and the reply; the index grows by at most one, iff the reply signals it and concepts remain; `IsComplete` iff at the last concept and (advance or "complete"); the session is removed iff complete |
| Answer.TurnKeepsValid | worker/src/session-answer.js:63-71 | every turn keeps `1 <= currentConcept <= max(1, concepts)` and each session under its own id |
| Start.PrepareSession | worker/src/session-start.js:29-64 | the chain of steps gives the outcome of `Prepare`, with nothing stored yet |
| Start.HandleStart | worker/src/session-start.js:11-105 | the handler's response and registry are those of the start function `StartTurn` |
| Start.StartAllOrNothing | worker/src/session-start.js:12-104 | a failed start leaves the registry unchanged; a successful one adds exactly the fresh id and keeps every other entry |
| Start.PreparedFailureStatus | worker/src/session-start.js:29-64 | every failed step answers 400 or 500 |
| Start.StartRejections | worker/src/session-start.js:16-43 | a missing `arxiv_id` or key, or an archive without any `.tex` file, answers 400 with the registry unchanged |
| Start.StartSuccess | worker/src/session-start.js:66-94 | the stored session has concept 1, the greeting as its whole history, knowledge defaulting to `''` and activity now; the response reports the clean title and the concept count |
| Start.StartKeepsValid | worker/src/session-start.js:66-81 | starting a session keeps the registry valid |
| Worker.Fetch | worker/src/index.js:33-74 | the sweep runs before routing on every request, then `Serve` runs the route's handler |
| Worker.OnlyPostReachesHandlers | worker/src/index.js:39-65 | `RouteOf` sends only POST `/session/start` and `/session/answer` to a handler; other requests change nothing, and unknown paths answer 404 |
| Worker.NoExpiredAfterRequest | worker/src/index.js:33-59 | after any request, no stored session is idle beyond the timeout |
| Worker.RequestKeepsValid | worker/src/index.js:33-59 | every request keeps the registry valid |
| Client.DigitRunEnd | main.js:119-121 | `\d+` takes the maximal run of digits |
| Client.IdEnd | main.js:119-121 | a `\d+\.\d+` match ends at a non-digit or at the end of the input |
| Client.IdEndShape | main.js:119-121 | what `\d+\.\d+` delimits is `digits.digits` |
| Client.UrlIdLeftmost | main.js:119-120 | `UrlId`, the first match of a URL form, has the shape `digits.digits`; it matches nowhere iff no position holds its prefix (in any case) followed by an id; otherwise it captures the id at the leftmost such position |
| Client.ExtractArxivIdShape | main.js:116-131 | `ExtractArxivId` yields only `digits.digits`: the `abs` form wins; else the `pdf` form; else an id is returned iff the whole input is one, and then the input itself |
| Client.BareIdMatches | main.js:121 | a bare id matches `^\d+\.\d+$` whole |
| Client.BareIdReturned | main.js:121-128 | a bare id is returned unchanged |
| Client.NoUrlInId | main.js:119-120 | no URL form matches inside a bare id |
| Client.ExtractArxivIdIgnoresCase | main.js:119-120 | inputs that differ only in the case of letters give the same result |
| Client.UrlIdIgnoresCase | main.js:119-120 | each URL form matches its prefix in any case |
| Client.MimeType | main.js:197-199 | pdf gives `application/pdf`, exactly jpg and jpeg give `image/jpeg`, and every other format gives `image/png` |
| Client.RenderFigure | main.js:195-226 | a PDF becomes an `<object>` whose fallback text is "PDF figure: " and the label, and anything else an `<img>`, with the base64 data URI of its MIME type; the alt text is the caption, or else the label; the caption block appears iff the caption is non-empty, and shows the caption |

## Left out

- **Download and decompression.** `fetchArxivSource` (worker/src/arxiv-handler.js:8-37) is network I/O plus gzip decompression (RFC 1952). It is the parameter `fetchSource`. A failure of either gives that function's fixed message.
- **Base64 and UTF-8.** `arrayBufferToBase64` (base64 of RFC 4648 section 4) and the lenient `TextDecoder` UTF-8 decoding are the parameters `encode` and `decode`. The model says where their results go, not what they compute; the round-trip lemmas assume only that the decoder reads bytes below 128 as the characters with those codes, as UTF-8 does (`AsciiDecoder`).
- **The language-model services.** worker/src/llm-client.js is not part of this model: the summariser, the greeting writer and the tutor are parameters. So is the JSON parsing of their replies.
- **The browser user interface.** Everything in main.js except `extractArxivId` and the markup choice of `renderFigure` is left out: DOM work, `parseMarkdown`, MathJax, timers, `fetch` and the progress display. `RenderFigure` gives the chosen elements, attributes and caption block, not the HTML text.
- **Concurrency.** Requests are served one at a time. Interleavings of concurrent handlers on the shared `Map` are not modelled.
- **The clock.** Each request reads the clock once, as the parameter `now`. The JavaScript reads `Date.now()` separately in the sweep and in each handler.
- **Map iteration order.** The sweep removes entries one at a time in an unspecified order. Its result does not depend on the order.
- **String indices.** Strings are sequences of characters, not of UTF-16 code units. Lower-casing maps only ASCII letters. Each comparison the worker makes uses ASCII patterns, so the outcome is the same. The one place where the unit matters is the figure window of worker/src/arxiv-handler.js:223-226: the model counts its 500 positions on each side in characters, while JavaScript counts UTF-16 code units. The two differ only when the corpus holds characters outside the Basic Multilingual Plane.
- **JSON bodies.** The members of a JSON body are strings. A member that is a non-string value (a number, an object) is not modelled. A body that fails to parse is modelled as the error message it throws.
- **Non-object JSON bodies.** A body that parses to something other than an object (`null`, a number, an array) is not modelled. In the source, destructuring `null` throws a `TypeError` inside the `try`, and the handler answers 500 (worker/src/session-answer.js:12-13, worker/src/session-start.js:13-14). In the model every parsed body is an object.
- **Transport details.** Response headers, CORS headers, JSON serialisation and console logging are left out.
- **The `sections` field.** `extractLatexStructure` initialises `sections` and never fills it. The model omits the field.
- **The outer 500 of the entry point.** The 500 "Internal server error" at worker/src/index.js:67-73 cannot be reached in this model: each handler catches its own errors.

## Findings

| source | as written | input that shows it | evidently intended | confidence | as-written member | corrected member |
|---|---|---|---|---|---|---|
| worker/src/arxiv-handler.js:60 | `parseInt(sizeStr, 8) \|\| 0` accepts a sign, and the cursor then advances by `512 + Math.ceil(size / 512) * 512` (lines 97-98) | a header whose size field reads `-1000` (octal for -512): the padded size is -512, the next offset equals the current one, and the loop reads the same header forever | a negative size counts as no content, so the cursor always moves past the header | not executed | Tar.NegativeSizeStallsCursor | Tar.NextOffset |
