# Arrflix decision logic, verified

A Dafny model of the parts of Arrflix that decide things: which release to grab,
what a scanned file is, what a release title says, which titles a home row shows,
when to search again. Each part is written in the form of its Go source. Loops and
in-place updates are methods proved against specification functions; the properties
are lemmas about those functions. `dafny verify dfyconfig.toml` checks everything.

## Parts

| files | models |
|---|---|
| `TreeListing`, `FlatListing`, `ListingOrder`, `Paths` | `cmd/mklib`: tree(1) listings to file paths, including the re-sliced stack and its backing array |
| `FixtureLexer`, `ScrubberRuns`, `Preprocessing`, `Interpolation`, `CSharpSource`, `CSharpStructure`, `Literals`, `Corpus` | `cmd/corpusharvest`: the six-state comment scrubber against its own and C#'s lexical structure, the two literal decoders against C#'s values, the deduplicated append |
| `Rules`, `Choosing`, `QualityProfile`, `QualityOrder` | rule trees over phase-tagged fields; gate, score, pick, re-gate, upgrade |
| `Metadata`, `Candidates`, `Merging`, `Evidence`, `Aggregator`, `Pipeline` | the matcher from resolvers to a stored decision, with the TMDB adapter it trusts |
| `SeriesMatch`, `SeriesIdentity`, `SeriesCaptures` | from the captures of a series pattern to season, episode, absolute or air-date numbering |
| `TitleKey` | title keys and title matching |
| `Feed` | home feed rows under diversity caps and a set of shown keys |
| `Cadence`, `ErrorChain` | search scheduling; observations on wrapped errors |
| `Prelude`, `Stability`, `Numbers`, `Arithmetic` | optional values, Go's string order, the stable sort, strconv and 64-bit wrap-around |

What the program asks of the outside world is a parameter: the TMDB client's answers,
resolver results, the encoder behind the evidence size, numeral and white-space
recognition, the Unicode tables, today's date, and the policy by which `append` grows a
slice. Source text and JSON payloads are byte strings, one `char` a byte; listing lines
and titles are rune strings.

## What the proofs turned up

The model follows the code wherever code and comment differ.

- `parse` neither sorts nor deduplicates (`cmd/mklib/main.go:103-117`). Its output is in
  order exactly when sibling names are, directories taken with a `/` behind theirs, which
  is not the order `tree` prints (`ListingOrder.ParsedSortedExactly`,
  `ListingOrder.NameOrderIsNotEnough`), and has repeats exactly when the tree has
  (`ListingOrder.ParsedRepeatsExactly`).
- `stack[:n.depth]` is bounded by the capacity. A listing that skips a level is emitted
  under stale names instead of failing (`TreeListing.SkippedLevelExposesBuffer`).
- `stripBlockComments` keeps a regular string or character open across a newline, reads
  preprocessing directives and the sections they skip as code and knows no interpolated
  strings. `#region Don't` hides the next comment, a comment opener in a skipped section
  blanks live code, and a string in the hole of an interpolated one can open a comment.
  It handles such an element exactly when it divides into tokens of the scrubber's that
  hold the same comments and leave it in code (`CSharpSource.AgreesExactly`).
- `decodeRegular` knows seven escapes; any other makes its value differ from the one C#
  gives (`Literals.CsValueExactly`).
- `better` measures both distances with the first argument's runtime. Season packs of
  different coverage have different runtimes and meet in one `Pick`
  (`service/acquisition.go:559-584`), so a pick among packs that tie on bin, score and
  seeders can depend on their order (`QualityOrder.PacksDependOnOrder`).
  `QualityOrder.PickOrderExactly` says exactly when it does not. It can even pass over a
  release of the pick's own runtime that is closer to the preferred size
  (`QualityOrder.MixedRuntimesMislead`).
- Scores are 64-bit sums, but stored weights are 32-bit (`migrations/0015_quality_profiles.up.sql:51`,
  `repo/quality.go:405-437`), so no score of a stored profile wraps. The code of the engine
  alone does not say so.
- The penalty path of `ReGate` is dead for every profile (`QualityOrder.ReGateNeverPenalizes`).
- `dominantAbove` accepts a confidence equal to the threshold, though its comment says
  strictly above (`aggregator.go:349-363`).
- The `partial_series` override also fires on ambiguous outcomes (`aggregator.go:418-425`),
  and can leave a pick without suggestions (`Aggregator.RankedShape`).
- The fallback suggestions lose their type (`aggregator.go:534-540`), in exactly the
  records and places that `Aggregator.FallbackLosesKind` names.
- `mergeCandidates` loses an episode that only a weaker, earlier candidate carried, and
  with a year hint the order of equally confident candidates can matter
  (`Merging.MergedEpisode`, `Merging.HintedConfidenceIgnoresOrder`).
- `capEvidence` gives everything up when the payload to drop next has the empty key
  (`aggregator.go:594-597`); keys are resolver names and audit slots, so none is empty.
- `biasCandidates` is not stable, though its comment says so. `Metadata.SwapExactly` gives
  the exact condition for one swap and `Metadata.OneSwapExactly` for a list that one swap
  puts in order. For longer runs the absence of jumps is sufficient
  (`Metadata.CalmIsStable`) but not necessary: each jump rotates the hits of one bias, and
  a later one can rotate them back (`Metadata.JumpsCanCancel`), so the exact condition is
  no simpler than the run itself.
- `selectItems` does not mark keys as shown inside a row (`Feed.RowsRepeatExactly` gives
  the exact condition), and a title that lists a genre twice counts twice for it
  (`Feed.CountsTitlesExactly`).
- `TitlesMatch` takes 11 for II, replacing each of its digits
  (`TitleKey.SequelNumbers`).

## Model

| member | source | states |
|---|---|---|
| TreeListing.ParseInvertsPrint | backend/cmd/mklib/main.go:125-159 | For every forest, every connector-free header and footer, both bar spellings and every slice-growth policy: parsing the printed tree yields exactly the joined root-to-leaf paths in preorder, without a panic, and no re-slice reaches past the current stack |
| TreeListing.ParsedPathsSplit | backend/cmd/mklib/main.go:155 | With plain names, splitting an emitted path at the separators gives back the list of names from root to leaf, so no two leaves are confused |
| TreeListing.ReadPrinted | backend/cmd/mklib/main.go:125-147 | Reading a printed subtree at any indentation recovers the depth and name of each entry, in order |
| TreeListing.ForestNested | backend/cmd/mklib/main.go:149-152 | Printed entries never skip a level, whatever follows them at or above their own depth |
| TreeListing.WalkForest | backend/cmd/mklib/main.go:149-158 | Walking a subtree's entries emits its leaf paths and leaves the part of the stack above it unchanged for whatever comes next |
| TreeListing.BufferIsStack | backend/cmd/mklib/main.go:150-157 | While no entry skips a level, the re-sliced shared buffer behaves like an ideal stack: no panic, no stale element, no influence of capacity |
| TreeListing.ConnectorIndex | backend/cmd/mklib/main.go:163-170 | The index of the first connector rune, or -1 exactly when there is none |
| TreeListing.ReadEntry | backend/cmd/mklib/main.go:137-146 | A line is skipped, read as an entry, or out of range when it ends inside its connector group |
| TreeListing.ReadListing | backend/cmd/mklib/main.go:135-147 | The entries of all lines in order, or the panic of the first unreadable line |
| TreeListing.Push | backend/cmd/mklib/main.go:150-152 | Appending to the re-sliced stack writes in place while the backing array has room and otherwise leaves a larger fresh array with the same prefix |
| TreeListing.Replay | backend/cmd/mklib/main.go:149-158 | The loop over the entries, in place on one array, computes the specified walk or stops exactly where a re-slice exceeds the capacity |
| TreeListing.ParseBox | backend/cmd/mklib/main.go:134-159 | Refines the two-pass specification that the round trip is proved about |
| TreeListing.SkippedLevelExposesBuffer | backend/cmd/mklib/main.go:134-159 | A listing whose last entry skips a level parses without failing: the leaf is filed under the name that an earlier branch of the same listing left in the buffer |
| TreeListing.ReadPrintedNodes | backend/cmd/mklib/main.go:135-147 | Entries of any depths, nested or not, printed one per line, are read back as they were |
| TreeListing.LoneEntry | backend/cmd/mklib/main.go:149-158 | Alone, an entry up to sixteen levels deep is emitted below unnamed directories, and a deeper one is out of range |
| TreeListing.ReadLineExactly | backend/cmd/mklib/main.go:135-147 | What stands before the first connector gives the depth and what follows its group the name; a line that ends inside the group is out of range, one without a connector no entry |
| TreeListing.UnreadableLine | backend/cmd/mklib/main.go:135-147 | One line out of range fails the whole listing |
| Paths.JoinPlain | backend/cmd/mklib/main.go:155 | On plain names filepath.Join is plain concatenation with separators, and splitting undoes it |
| Paths.CleanPlain | backend/cmd/mklib/main.go:182 | filepath.Clean leaves a path of plain names alone |
| Paths.CleanIdempotent | backend/cmd/mklib/main.go:182 | Cleaning a path twice changes nothing more |
| Paths.ReduceRewrites | backend/cmd/mklib/main.go:182 | Empty and '.' components change nothing, '..' takes back the name before it, and there is nothing above the root |
| Paths.JoinExactly | backend/cmd/mklib/main.go:155 | Elements are joined from the first that is not empty on, and cleaned |
| FlatListing.FormsAgree | backend/cmd/mklib/main.go:103-117 | The box-drawing and the one-path-per-line listing of the same forest, each with its own noise lines, are told apart and parse to the same paths |
| FlatListing.FlatForm | backend/cmd/mklib/main.go:172-185 | A flat listing of safe paths followed by blank, directory or summary lines parses to exactly those paths |
| FlatListing.ParseFlat | backend/cmd/mklib/main.go:175-185 | Each line contributes its cleaned path after trailing carriage returns, or nothing when it names no file; nothing is sorted or deduplicated |
| FlatListing.Parse | backend/cmd/mklib/main.go:105-117 | Box form is chosen exactly when some line holds a box-drawing rune |
| FlatListing.SummaryExactly | backend/cmd/mklib/main.go:172-185 | A summary is a number of directories and a number of files in tree's wording |
| FlatListing.FlatLineExactly | backend/cmd/mklib/main.go:175-185 | A line names the file left of it without trailing carriage returns, unless that is empty, ends in a separator or is a summary |
| FlatListing.BoxFormExactly | backend/cmd/mklib/main.go:105-117 | Box form is chosen exactly when one of the three tree characters occurs |
| ListingOrder.ParsedSortedExactly | backend/cmd/mklib/main.go:103-117 | With distinct sibling names: a parsed tree's paths are increasing if and only if in every directory consecutive entries increase by name, directories taken with a separator behind theirs |
| ListingOrder.NameOrderIsNotEnough | backend/cmd/mklib/main.go:134-159 | Siblings in the order of their names can parse out of order: a directory d with a file in it, followed by a file whose name extends d by a byte below the separator |
| ListingOrder.ParsedRepeatsExactly | backend/cmd/mklib/main.go:103-117 | A parsed tree's paths repeat if and only if its leaves do |
| CSharpSource.CommentsBlanked | backend/cmd/corpusharvest/main.go:245-248 | For every C# source in elements (comments, literals that end with their line, directives with the lines they skip, interpolated strings with their holes) and whatever symbols are defined: exactly the comments are blanked, as long as the scrubber handles its directives, skipped sections and interpolated strings |
| CSharpSource.AgreesExactly | backend/cmd/corpusharvest/main.go:249-343 | At the first such element, everything that can follow is scrubbed as the structure says if and only if that element divides into tokens of the scrubber's that hold the same comments and leave it in code |
| CSharpSource.HandledExactly | backend/cmd/corpusharvest/main.go:249-343 | The same for a single element in front of everything that can follow it |
| CSharpSource.DirectiveHandledExactly | backend/cmd/corpusharvest/main.go:249-343 | For a directive with the lines it skips the condition is that its text divides into tokens of which none is a block comment |
| CSharpSource.InterpolatedHandledExactly | backend/cmd/corpusharvest/main.go:249-343 | For an interpolated string without comments in its holes: into tokens of which none is a block comment and the last no line comment |
| CSharpSource.EveryLineLexes | backend/cmd/corpusharvest/main.go:245-343 | Every source with a complete last line has such a structure, up to its end or to an interpolated string or conditional that is never closed |
| CSharpSource.UnclosedNeverHandled | backend/cmd/corpusharvest/main.go:292-302 | A regular string or character left open at a newline is never handled: the scrubber keeps it open |
| CSharpSource.QuietDirectiveHandled | backend/cmd/corpusharvest/main.go:267-291 | A directive without quotes and comment openers is handled, whatever a line comment behind it holds |
| CSharpSource.ApostropheHidesComment | backend/cmd/corpusharvest/main.go:286-288 | A directive with a stray apostrophe is not, and the next comment is left standing |
| CSharpSource.SkippedOpenerBlanksCode | backend/cmd/corpusharvest/main.go:269-273 | Nor is a skipped section that opens a comment: the closing directive and the live code up to the next close are blanked |
| CSharpSource.SkippedOpenerExample | backend/cmd/corpusharvest/main.go:269-273 | For instance `int y;` behind the #endif of a skipped section that holds a lone comment opener |
| CSharpSource.HoleFamily | backend/cmd/corpusharvest/main.go:283-285 | Nor is an interpolated string that indexes, in a hole, by a string that starts with a comment opener |
| CSharpStructure.StructureUnique | backend/cmd/corpusharvest/main.go:245-248 | And no source has two, so which of its bytes are comments is settled |
| ScrubberRuns.RunOn | backend/cmd/corpusharvest/main.go:261-341 | A source in the scrubber's own structure comes out as that structure says in front of any continuation no step reaches into, which is entered in the state its last token or open end leaves |
| Interpolation.ScanCut | backend/cmd/corpusharvest/main.go:283-285 | Where an interpolated string ends does not depend on what follows it |
| Preprocessing.SectionCut | backend/cmd/corpusharvest/main.go:245-248 | Nor does where a skipped section ends depend on which closing directive follows it |
| FixtureLexer.StripIdempotent | backend/cmd/corpusharvest/main.go:245-343 | Running the scrubber on its own output changes nothing |
| FixtureLexer.StripTwice | backend/cmd/corpusharvest/main.go:245-343 | From every state: a second run over the output copies it, entering code where the first run was in a comment |
| FixtureLexer.StripKeepsLayout | backend/cmd/corpusharvest/main.go:245-248 | Length and every newline position survive, and every other byte is kept or becomes a space |
| FixtureLexer.StripToken | backend/cmd/corpusharvest/main.go:267-340 | One lexical element in front of any text is copied, or blanked if it is a block comment, and hands code state on to the text |
| FixtureLexer.StripBlockComments | backend/cmd/corpusharvest/main.go:249-343 | The byte loop with its lookahead and skipped indices refines the one-move-at-a-time machine |
| FixtureLexer.StripBlanksComments | backend/cmd/corpusharvest/main.go:245-343 | In the scrubber's own lexical structure, for every sequence of elements and every unterminated end, exactly the bytes of block comments other than newlines are blanked |
| FixtureLexer.EverySourceLexes | backend/cmd/corpusharvest/main.go:245-343 | Every byte string has such a structure |
| Literals.RegularRejects | backend/cmd/corpusharvest/main.go:432-471 | decodeRegular succeeds exactly on texts that start with a terminated regular literal body |
| Literals.VerbatimRejects | backend/cmd/corpusharvest/main.go:475-490 | decodeVerbatim succeeds exactly on texts that start with a terminated verbatim body whose closing quote is not doubled |
| Literals.VerbatimComplete | backend/cmd/corpusharvest/main.go:475-490 | Every verbatim literal decodes to the values of its elements when no quote follows |
| Literals.VerbatimSound | backend/cmd/corpusharvest/main.go:475-490 | Whatever decodes is a verbatim literal of the grammar with that value |
| Literals.DecodeInvertsEscape | backend/cmd/corpusharvest/main.go:432-490 | Every byte string, written as a regular or verbatim literal and decoded, comes back |
| Literals.DecodeRegular | backend/cmd/corpusharvest/main.go:434-471 | The loop decodes as the grammar lemmas say, and returns nothing for an unterminated body |
| Literals.DecodeVerbatim | backend/cmd/corpusharvest/main.go:475-490 | Likewise for verbatim bodies |
| Literals.ScanFirstStringLiteral | backend/cmd/corpusharvest/main.go:409-430 | Finds and decodes the first literal of an argument list unless a closing parenthesis comes first |
| Literals.FirstLiteralFound | backend/cmd/corpusharvest/main.go:405-430 | After any text without quote or parenthesis, the value of the first literal in either form is returned, and nothing when the list closes first |
| Literals.LeadIsSkipped | backend/cmd/corpusharvest/main.go:409-428 | Text that opens no literal and closes no list does not influence the result |
| Literals.RegularComplete | backend/cmd/corpusharvest/main.go:432-471 | Every closed sequence of characters and backslash pairs decodes to the values of the decoder's own table, whatever follows the closing quote |
| Literals.RegularSound | backend/cmd/corpusharvest/main.go:432-471 | Whatever decodes is such a sequence, with that value |
| Literals.CsValueExactly | backend/cmd/corpusharvest/main.go:444-462 | For every C# regular literal, hexadecimal and Unicode escapes included, the decoded value is the one C# gives it if and only if each escape is one of the seven that the decoder names |
| Literals.ReadingAgrees | backend/cmd/corpusharvest/main.go:444-462 | Escape by escape: a simple escape it does not name yields a different byte, a numeric one too many bytes |
| Corpus.AddedExactly | backend/cmd/corpusharvest/main.go:118-161 | What is appended is exactly what was harvested and not yet present, each pair once, ordered by domain then input |
| Corpus.OrderOfFixturesIrrelevant | backend/cmd/corpusharvest/main.go:132-159 | The appended entries depend only on the set of harvested pairs, not on how fixtures list, split or repeat them |
| Corpus.RerunAddsNothing | backend/cmd/corpusharvest/main.go:118-148 | A second harvest over its own output appends nothing |
| Corpus.HarvestFixture | backend/cmd/corpusharvest/main.go:140-148 | One fixture extends the seen set and the harvest by exactly its new pairs in first-seen order |
| Corpus.Harvest | backend/cmd/corpusharvest/main.go:119-161 | The existing entries stay in front, unchanged; an unreadable fixture is skipped |
| Corpus.HarvestedExactly | backend/cmd/corpusharvest/main.go:132-148 | What is harvested is every input of every fixture that could be read, under its domain |
| Corpus.AddedInOrder | backend/cmd/corpusharvest/main.go:150-159 | Appended entries increase by domain, then by input |
| Rules.EvalRatchet | backend/internal/rules/eval.go:58-174 | Knowledge only accumulates: for any tree, a definite verdict on a subject at one moment is the verdict on every richer subject at every later moment |
| Rules.CombineRatchet | backend/internal/rules/eval.go:92-119 | Resolving unknown children can only resolve, never flip, a branch's result |
| Rules.DeMorgan | backend/internal/rules/eval.go:77-119 | De Morgan's laws hold of whole trees under the three-valued evaluation, unknowns and empty branches included |
| Rules.ComparisonLaws | backend/internal/rules/eval.go:196-286 | Ordering operators mirror and negate each other, ne and not_in negate eq and in, membership and containment agree, numbers compare arithmetically |
| Rules.CombineInOrder | backend/internal/rules/eval.go:82-121 | The in-order accumulation with early exit computes Kleene conjunction, disjunction and negation, and unknown for wrong arities |
| Rules.LeafExactly | backend/internal/rules/eval.go:125-190 | A comparison is decided by the values of its operands and unknown when one has none: a field has its value when it is registered, at or before the moment, in an assembled half, and set |
| Rules.CompareExactly | backend/internal/rules/eval.go:196-323 | Values of one type compare by contents, lists as sets; numbers are ordered, texts and lists hold texts, and nothing else is decided, except that values of different types differ |
| Rules.BranchExactly | backend/internal/rules/eval.go:82-121 | A branch is true, false or unknown as its children's results make it, and unknown without the right number of them |
| Rules.NothingDecided | backend/internal/rules/eval.go:64-80 | A missing tree and an unsupported operator are unknown |
| Choosing.ChoiceExactly | backend/internal/qualityprofile/evaluate.go:175-183 | For any relation, a scan that keeps the best so far gives the same result in every order if and only if nothing qualifies or one element is better than every other and none is better than it |
| Choosing.ChosenIsMaximum | backend/internal/qualityprofile/evaluate.go:175-183 | Under a total order the scan ends with the maximum |
| QualityOrder.Dispositions | backend/internal/qualityprofile/evaluate.go:175-196 | One evaluation is grabbed exactly when some release passes, the other passers are runners-up and exactly the non-passers are rejected |
| QualityOrder.BetterIrreflexive | backend/internal/qualityprofile/evaluate.go:204-233 | No release is better than itself |
| QualityOrder.UpgradeUsesHeadroom | backend/internal/qualityprofile/evaluate.go:281-294 | Every upgrade strictly lowers a measure of bin rank and score gap |
| QualityOrder.HeadroomBounds | backend/internal/qualityprofile/evaluate.go:281-294 | That measure is never negative and never above the bound |
| QualityOrder.MarginIsExact | backend/internal/qualityprofile/evaluate.go:292-293 | At equal bins the machine comparison means a gain beyond the margin exactly when the score difference fits an int64 or the wrapped value happens to stay on the same side |
| QualityOrder.NoMutualUpgrade | backend/internal/qualityprofile/evaluate.go:286-294 | No two held qualities can upgrade to each other, for any weights, even when scores wrap |
| QualityOrder.UpgradeKeepsCutoff | backend/internal/qualityprofile/profile.go:133-139 | An upgrade never takes a file that met the cutoff back below it |
| QualityOrder.SupersedeIsOrder | backend/internal/qualityprofile/evaluate.go:296-311 | Superseding is a strict weak order on held qualities |
| QualityOrder.PickNotSuperseded | backend/internal/qualityprofile/evaluate.go:296-311 | Whatever the runtimes and GUIDs, no passing candidate of a search supersedes the picked one |
| QualityOrder.ScoreInRange | backend/internal/qualityprofile/evaluate.go:135-151 | A score lies in an interval of width W when W fits an int64 |
| QualityOrder.GateRatchet | backend/internal/qualityprofile/evaluate.go:73-76 | A custom gate that rejects at search hard-fails the re-gate on any richer subject, naming that gate or an earlier one |
| QualityOrder.ReGateNeverPenalizes | backend/internal/qualityprofile/evaluate.go:261-279 | For any gates and formats the re-gate passes without penalty or findings, or fails hard; the penalty path is dead |
| QualityOrder.PickChooses | backend/internal/qualityprofile/evaluate.go:159-197 | Pick is such a scan over the passing releases |
| QualityOrder.PickOrderExactly | backend/internal/qualityprofile/evaluate.go:153-197 | For any releases and runtimes: the pick is the same in every order if and only if nothing passes or some passing release is better than each other one while none is better than it |
| QualityOrder.PickIsMaximum | backend/internal/qualityprofile/evaluate.go:153-233 | When passing releases that tie on bin, score and seeders share a runtime and differ in GUID, a release is picked if and only if it beats every other passing one |
| QualityOrder.PickIgnoresOrder | backend/internal/qualityprofile/evaluate.go:153-197 | And every permutation of the candidates yields the same pick |
| QualityOrder.BetterContradicts | backend/internal/qualityprofile/evaluate.go:204-233 | Of two releases with different GUIDs exactly one is better, unless bin, score and seeders tie and the sizes compare differently by the one's and the other's runtime; then both are or neither is |
| QualityOrder.BetterTrichotomy | backend/internal/qualityprofile/evaluate.go:199-233 | Of two listed releases with different GUIDs, sharing a runtime if the first three keys tie, exactly one is better |
| QualityOrder.BetterTransitive | backend/internal/qualityprofile/evaluate.go:199-233 | The six-key preference is transitive when neighbours that tie on the first three keys share a runtime |
| QualityOrder.PairOrderMatters | backend/internal/qualityprofile/evaluate.go:215-227 | The pick of two passing releases depends on their order exactly when they contradict each other in that way |
| QualityOrder.PacksDependOnOrder | backend/internal/service/acquisition.go:559-584 | Two season packs of different coverage, tied otherwise and each of its own preferred size, meet in one Pick call, and the one offered last is picked |
| QualityOrder.PassesExactly | backend/internal/qualityprofile/evaluate.go:73-116 | A release passes exactly when its bin is allowed, it has the seeders, no gate fires and its size lies in the runtime-scaled band, the scaling being a 64-bit product; bin and seeder failures are reported first |
| QualityOrder.UpgradeRunsAreBounded | backend/internal/qualityprofile/evaluate.go:281-294 | For every profile that can be stored, any run of upgrades has at most B + (B+1) * floor(W / (d+1)) steps from a score the profile can give, and one more from any other |
| QualityOrder.RunsInRangeAreBounded | backend/internal/qualityprofile/evaluate.go:281-294 | The same for any profile whose absolute weights sum to at most the largest int64 |
| QualityOrder.StorableFits | backend/internal/db/migrations/0015_quality_profiles.up.sql:47-54 | 32-bit weights of fewer than 2^32 formats sum to at most the largest int64, so no score of a stored profile wraps |
| QualityOrder.PacksExist | backend/internal/service/acquisition.go:559-584 | Such packs exist: ten and four hours long, each of its preferred size |
| QualityOrder.PickPrefers | backend/internal/qualityprofile/evaluate.go:204-233 | Key by key: no passer is of a better bin than the pick, none of its bin scores higher, none of its bin and score has more seeders, and if those that tie so far share its runtime none is closer to the preferred size, then smaller, then of a smaller GUID |
| QualityOrder.DistanceExactly | backend/internal/qualityprofile/evaluate.go:217-227 | The distance is the difference from the preferred rate over the runtime whenever both fit a machine integer |
| QualityOrder.MixedRuntimesMislead | backend/internal/qualityprofile/evaluate.go:217-227 | Without a common runtime the pick can be farther from its preferred size than another release of its runtime |
| QualityOrder.RejectsExactly | backend/internal/qualityprofile/evaluate.go:77-116 | A rejection names the first gate that fires, or the side on which the size leaves its band, exactly when everything before it is right |
| QualityOrder.ScoreExactly | backend/internal/qualityprofile/evaluate.go:126-151 | The score is the machine sum of the weights of exactly the formats whose tree is true |
| QualityOrder.BinDecides | backend/internal/qualityprofile/evaluate.go:286-311 | A better bin always upgrades and supersedes and a worse one never; in the same bin a higher score supersedes |
| QualityOrder.CutoffExactly | backend/internal/qualityprofile/profile.go:124-139 | The cutoff is met from the first listed bin down to its own, and by every bin when it is not listed |
| QualityOrder.ReGateNames | backend/internal/qualityprofile/evaluate.go:248-261 | A re-gate that fails names the first gate that fires at import |
| QualityProfile.RankIn | backend/internal/qualityprofile/profile.go:121-131 | The position of a bin, or the length of the list exactly for an unlisted bin |
| QualityProfile.FiringGate | backend/internal/qualityprofile/evaluate.go:88-92 | The first gate that fires; every gate before it, or every gate at all, does not |
| QualityProfile.ComputeScore | backend/internal/qualityprofile/evaluate.go:140-151 | The int64 accumulation equals the wrapped sum of the matching weights |
| QualityProfile.EvaluateEach | backend/internal/qualityprofile/evaluate.go:160-173 | One evaluation per candidate, in input order, initially rejected |
| QualityProfile.Scan | backend/internal/qualityprofile/evaluate.go:175-183 | Refines the specified running maximum |
| QualityProfile.Dispose | backend/internal/qualityprofile/evaluate.go:189-194 | In-place marking leaves everything but dispositions unchanged |
| QualityProfile.Pick | backend/internal/qualityprofile/evaluate.go:159-197 | Picks by the specified scan and returns all evaluations; none is re-marked when nothing passes |
| QualityProfile.BestOf | backend/internal/qualityprofile/evaluate.go:175-183 | There is a best exactly when something passed, and it passed |
| QualityProfile.CompareFormats | backend/internal/qualityprofile/evaluate.go:266-274 | Penalty and findings are the wrapped sum and the names of exactly the formats that flipped, in order |
| QualityProfile.ReGate | backend/internal/qualityprofile/evaluate.go:248-279 | The first gate that fires at import decides; otherwise the penalty's sign does |
| Metadata.LookupIsHonest | backend/internal/metadata/tmdb_provider.go:42-123 | A hit is always a TMDB record with a non-zero ID; it is flagged redirected exactly when a TMDB request was answered under another ID, and an unflagged hit in the requested namespace has the requested ID |
| Metadata.BiasedSorts | backend/internal/metadata/tmdb_provider.go:220-253 | Biasing drops nothing and orders by type-and-year bias, descending |
| Metadata.BiasKeepsSorted | backend/internal/metadata/tmdb_provider.go:224-253 | A list already in bias order is left alone |
| Metadata.BestHitIsFirst | backend/internal/metadata/tmdb_provider.go:243-248 | The inner loop selects the first of the hits with the greatest bias |
| Metadata.FindBest | backend/internal/metadata/tmdb_provider.go:243-248 | The inner loop over the array suffix refines that selection |
| Metadata.PlaceBest | backend/internal/metadata/tmdb_provider.go:242-252 | One swap extends the sorted prefix by one |
| Metadata.BiasCandidates | backend/internal/metadata/tmdb_provider.go:225-253 | The in-place sort leaves in the array the specified arrangement of its old contents |
| Metadata.SwapExactly | backend/internal/metadata/tmdb_provider.go:242-252 | One swap keeps TMDB's ranking among hits of equal bias if and only if the hit that makes way jumps over no different hit of its own bias |
| Metadata.CalmIsStable | backend/internal/metadata/tmdb_provider.go:220-253 | A run in which no swap jumps ends with the stable sort that the comment promises |
| Metadata.OneSwapExactly | backend/internal/metadata/tmdb_provider.go:220-253 | When the rest is in order after the first swap, the result is the stable sort if and only if that swap does not jump |
| Metadata.JumpsCanCancel | backend/internal/metadata/tmdb_provider.go:242-252 | With more swaps a jump need not show: a second one can restore the ranking |
| Metadata.StableIffRanking | backend/internal/metadata/tmdb_provider.go:220-224 | An arrangement in bias order is the stable sort if and only if it keeps the ranking within every bias |
| Metadata.BiasedByFields | backend/internal/metadata/tmdb_provider.go:220-253 | No hit of another type precedes one of the requested type, among those alike in that none of another year one of the requested year, and without a request the order is TMDB's |
| Metadata.TmdbLookupExactly | backend/internal/metadata/tmdb_provider.go:82-125 | A TMDB ID finds the movie of that number, else the series, with its title, year and poster, and fails when an endpoint fails before one is found |
| Metadata.CrossLookupExactly | backend/internal/metadata/tmdb_provider.go:47-79 | An IMDb or TVDB ID finds what its first mapped movie, else its first mapped series, finds under TMDB's ID |
| Metadata.SplitYearReads | backend/internal/metadata/tmdb_provider.go:255-267 | The year is the number in the first four bytes of a date, and unknown when they are not one or are missing |
| Metadata.LookupRejects | backend/internal/metadata/tmdb_provider.go:47-88 | Without a client, or for a namespace other than TMDB, IMDb and TVDB, there is no provider, and exactly the TMDB IDs that are no number are invalid |
| Candidates.ItemsKeepIdentity | backend/internal/matcher/aggregator.go:206-257 | With an honest provider every validated record is filed under its own source and ID, across plain, redirected and cross-provider lookups |
| Candidates.TmdbProviderIsHonest | backend/internal/metadata/tmdb_provider.go:42-75 | The TMDB adapter satisfies that contract for every list of candidates |
| Candidates.CheckNeverRaises | backend/internal/matcher/aggregator.go:206-257 | Validating a non-negative confidence keeps it between 0.95 times itself and itself |
| Candidates.ValidationNeverRaises | backend/internal/matcher/aggregator.go:184-279 | Every survivor stems from an input candidate at least as confident |
| Candidates.ValidateAgainstProvider | backend/internal/matcher/aggregator.go:184-279 | Survivors, records and rewrites of the whole list; a nil provider passes candidates through |
| Candidates.RewritesRecordChanges | backend/internal/matcher/aggregator.go:228-249 | Behind the TMDB adapter a candidate has an audit entry exactly when its reference changed, naming what it was and what it became; one kept without a record is untouched |
| Candidates.CheckExactly | backend/internal/matcher/aggregator.go:205-256 | What becomes of a candidate, field by field: dropped, kept as it is, or shown as the record found, with its ID and 0.99 or, for a redirect, 0.95 of its confidence |
| Candidates.ValidatedOneByOne | backend/internal/matcher/aggregator.go:205-256 | Validation treats every candidate on its own, in order |
| Candidates.ItemsExactly | backend/internal/matcher/aggregator.go:184-256 | A record is on file exactly for the references of candidates that were kept with one |
| Candidates.LastRecordStays | backend/internal/matcher/aggregator.go:184-256 | Of several candidates that file a record under one reference the last one's stays |
| Candidates.RewriteExactly | backend/internal/matcher/aggregator.go:228-246 | Whatever the provider: a rewrite is logged exactly for a record of another namespace or a redirected one, with both ends |
| Merging.MergedIdentities | backend/internal/matcher/aggregator.go:281-347 | The merged list names every identity of the input and no other, exactly once |
| Merging.RefsInFirstSeenOrder | backend/internal/matcher/aggregator.go:299-309 | Identities come in first-seen order: those of any prefix of the input come first |
| Merging.MergedConfidence | backend/internal/matcher/aggregator.go:281-347 | Each confidence is min(0.99, max + 0.05 (n-1)), times 0.9 exactly when the surviving payload's year and the hint are both known and differ |
| Merging.BucketIsPayload | backend/internal/matcher/aggregator.go:302-320 | The greedy bucket holds the first candidate of greatest confidence, with the first episode carried from it on, and the count |
| Merging.FirstBestIsFirst | backend/internal/matcher/aggregator.go:314-315 | Every candidate before the surviving one is strictly less confident |
| Merging.MergedEpisode | backend/internal/matcher/aggregator.go:311-319 | The merged candidate carries an episode exactly when the surviving candidate or one after it does; episodes that only weaker, earlier candidates carried are lost |
| Merging.ConfidenceIgnoresOrder | backend/internal/matcher/aggregator.go:281-347 | Without a year hint the confidence of an identity is the same for every permutation of the input |
| Merging.HintedConfidenceIgnoresOrder | backend/internal/matcher/aggregator.go:332-341 | With a hint it is so if and only if the equally confident top candidates agree on whether their year differs, or nothing is left to penalise |
| Merging.MergeIdempotent | backend/internal/matcher/aggregator.go:281-347 | Merging a merged list again without a hint changes nothing |
| Merging.MergeCandidates | backend/internal/matcher/aggregator.go:288-347 | The bucket loop and the second loop compute the declarative merge |
| Merging.MergedFields | backend/internal/matcher/aggregator.go:288-342 | What is shown of a merged candidate is the best one's, and its episode that of the first from it on that carries any |
| Evidence.TrimGuarantees | backend/internal/matcher/aggregator.go:559-607 | With non-empty keys: what is stored fits 8192, kept payloads are unchanged, every dropped one is larger than every kept one (ties by key), and restoring the one dropped last would exceed the cap; likewise for a lone oversized payload |
| Evidence.TrimFits | backend/internal/matcher/aggregator.go:575-582 | Stored evidence fits the cap for any keys and any encoder |
| Evidence.TrimNeverEmpty | backend/internal/matcher/aggregator.go:559-607 | Evidence is stored whole exactly when it fits, and is never replaced by an empty object when no encoding fails |
| Evidence.NextDropUnique | backend/internal/matcher/aggregator.go:583-593 | The payload to drop is unique, so trimming is independent of map iteration order |
| Evidence.FindDrop | backend/internal/matcher/aggregator.go:585-593 | A scan of the map in any order finds that payload |
| Evidence.CapEvidence | backend/internal/matcher/aggregator.go:564-607 | Terminates for every map; blob and truncated flag are those of the specified trimming |
| Evidence.TrimKeepsSmall | backend/internal/matcher/aggregator.go:564-607 | What is stored takes at most 8192 bytes, and no payload was dropped while a bigger one, or one of its size and a greater key, was kept |
| Evidence.CappedExactly | backend/internal/matcher/aggregator.go:564-607 | No evidence is the empty object and not truncated; any other is not truncated exactly when its encoding fits and is stored whole |
| Aggregator.ShortCircuitCoherent | backend/internal/matcher/aggregator.go:89-97 | A record is confident exactly when dominantAbove accepts at Auto and no override fires, and whatever dominantAbove accepts is what the record chooses |
| Aggregator.SinglePickListsChosen | backend/internal/matcher/aggregator.go:458-460 | Outside the override, single-pick bands list exactly the chosen candidate with its record, at or above LowMin |
| Aggregator.AmbiguousLists | backend/internal/matcher/aggregator.go:461-464 | An ambiguous list is a prefix of the sorted candidates: all that reach LowMin, or the leading ones when none does, as many as fit in five |
| Aggregator.BestIsMaximum | backend/internal/matcher/aggregator.go:393-399 | The recorded confidence is the greatest of the candidates, and the choice is one that attains it |
| Aggregator.RecordKeepsIdentity | backend/internal/matcher/aggregator.go:427-444 | When records are filed under their identity, chosen and suggested items name the reference they are attached to |
| Aggregator.AggregateKeepsIdentity | backend/internal/matcher/aggregator.go:89-114 | Through TMDB lookup, validation, merging and banding, with any client and resolvers, every item in the outcome names the identity it is attached to |
| Aggregator.TopIsGreatest | backend/internal/matcher/aggregator.go:623-633 | The audited top confidence is the greatest one, or zero |
| Aggregator.RankCandidates | backend/internal/matcher/aggregator.go:470-557 | Refines the specified suggestion list; fallback entries lose their type |
| Aggregator.BandAndRecord | backend/internal/matcher/aggregator.go:376-449 | Refines the specified record |
| Aggregator.RunTier | backend/internal/matcher/aggregator.go:121-159 | Candidates, audits and evidence of exactly the resolvers that are available and did not fail, in order |
| Aggregator.TopConfidence | backend/internal/matcher/aggregator.go:625-633 | Computes that greatest confidence |
| Aggregator.LogRewrites | backend/internal/matcher/aggregator.go:259-276 | Each audit slot is written exactly when it has rewrites, with those rewrites in order; other payloads stay |
| Aggregator.Aggregate | backend/internal/matcher/aggregator.go:89-114 | Record, audits and capped evidence of the tiered pipeline; lower tiers leave no trace when Tier 1 short-circuits |
| Aggregator.DominantExactly | backend/internal/matcher/aggregator.go:349-368 | Without the sort: some candidate reaches the threshold and leads every other by epsilon exactly when dominantAbove accepts, and it returns that one |
| Aggregator.OutcomeExactly | backend/internal/matcher/aggregator.go:393-425 | With ordered thresholds the outcome is the highest band whose threshold a clear leader reaches, ambiguous without one, and partial_series exactly when the override fires for the first most confident candidate |
| Aggregator.LeaderIsFirstBest | backend/internal/matcher/aggregator.go:393-396 | The best is, of the most confident candidates, the first one emitted |
| Aggregator.RankedShape | backend/internal/matcher/aggregator.go:451-557 | With ordered thresholds the suggestions are sorted descending, at most five, and empty exactly without candidates or when the override picked one below LowMin |
| Aggregator.FallbackLosesKind | backend/internal/matcher/aggregator.go:525-554 | The suggestions are the leading candidates, and exactly those below LowMin in an ambiguous record lose their type |
| Pipeline.NoMatchExactly | backend/internal/matcher/aggregator.go:89-113 | There is no match exactly when no Tier-1 candidate survived validation and, unless one of those is in clear lead, no resolver of Tier 2 or 3 that was available and did not fail emitted any |
| Pipeline.RecordBounds | backend/internal/matcher/aggregator.go:89-113 | The recorded confidence is at least what every considered candidate's identity is worth: its own confidence when Tier 1 settles the matter, merged over all three tiers otherwise |
| Pipeline.RecordAttains | backend/internal/matcher/aggregator.go:89-113 | Some considered candidate's identity is worth just that, and is the choice if there is one |
| Pipeline.WorthAtLeast | backend/internal/matcher/aggregator.go:288-342 | Whatever is considered, the recorded confidence is at least its own up to 0.99, and with a year hint at least nine tenths of that |
| Pipeline.SuggestionConsidered | backend/internal/matcher/aggregator.go:470-557 | Every suggestion names a considered identity with what it is worth |
| Pipeline.SuggestionFields | backend/internal/matcher/aggregator.go:525-557 | A suggestion shows the title, year, poster, episode and edition of its candidate and the item on file for it |
| Pipeline.ChoiceFields | backend/internal/matcher/aggregator.go:393-449 | A record that chooses reports the first of the most confident candidates with its episode, edition and item; an ambiguous one reports none of them; a series-shaped file whose best candidate has no episode is a partial series |
| Pipeline.NothingReported | backend/internal/matcher/aggregator.go:376-392 | Without candidates the record is empty: no match, no choice, confidence zero, no suggestions |
| Pipeline.TierOneByOne | backend/internal/matcher/aggregator.go:121-159 | A tier's candidates and audits are those of its resolvers that ran, one after the other, whatever stands before or after them |
| Pipeline.GatheredExactly | backend/internal/matcher/aggregator.go:89-104 | Before it is capped the evidence holds under each key the payload of the last resolver of the last consulted tier that left one, validation's log coming after Tier 1, and nothing else |
| SeriesIdentity.OutcomesPartition | backend/internal/parsing/series.go:482-671 | For every list of matches: next pattern exactly for an unreadable or descending number without an air year, abort exactly for an ambiguous, impossible or out-of-window date with one, success otherwise |
| SeriesIdentity.FirstDecisionCounts | backend/internal/parsing/series.go:394-433 | The first pattern that does not ask for the next one decides the title; an abort leaves it without identity |
| SeriesIdentity.AirDateIffDaily | backend/internal/parsing/series.go:622-670 | On success the air date is set exactly for daily numbering; it is then a Gregorian date inside the window and no season, episode, absolute or special is numbered |
| SeriesIdentity.MonthAndDayChoice | backend/internal/parsing/series.go:627-645 | A surviving ambiguous pair has a day beyond 12, and a plain pair is swapped only when its month is beyond 12 |
| SeriesIdentity.StandardSeason | backend/internal/parsing/series.go:599-617 | Mini-series exactly when there are episodes but neither season nor absolutes, and then season 1; otherwise the first numeric season; multi-season exactly when two season captures differ |
| SeriesIdentity.StandardKind | backend/internal/parsing/series.go:691-708 | Season-episode exactly with a season or episodes; absolute exactly with absolute or special numbers and neither |
| SeriesIdentity.TokensAreSuffix | backend/internal/parsing/series.go:672-684 | Release tokens are a suffix of the release title, cut no earlier than the end of the matched title unless the whole title is kept |
| SeriesIdentity.ParseIdentity | backend/internal/parsing/series.go:394-433 | The pattern loop refines the first-decision specification |
| SeriesIdentity.StandardNumbers | backend/internal/parsing/series.go:517-597 | On a standard success every match was readable; the episode list is the ascending range of the last match with episodes (empty when the override fires on it), the absolute list that of the last with whole absolutes, the special number that of the last with a fractional one, and every flag says whether some match means it |
| SeriesIdentity.NumbersOfLast | backend/internal/parsing/series.go:524-597 | The accumulated numbers after any prefix of matches are those of its last match of each sort |
| SeriesIdentity.FlagsOfAny | backend/internal/parsing/series.go:524-597 | Full season, partial season, extras, special and split episode are each the disjunction over the matches, and the season part is the first match's exactly for a partial season |
| SeriesIdentity.LastIsLast | backend/internal/parsing/series.go:524-597 | No later match has a number of the sort |
| SeriesCaptures.DailyOnCaptures | backend/internal/parsing/series.go:631-660 | On the captures alone: an air year from 1900 on makes the title daily, dated as its captures spell it; it aborts exactly when they spell no calendar date of the window |
| SeriesCaptures.DateRoundTrip | backend/internal/parsing/series.go:631-660 | For every date of the window: captures that spell it, the month first or, for days beyond 12, last, give back exactly that date |
| SeriesCaptures.GregorianExactly | backend/internal/parsing/series.go:910-920 | Which dates there are |
| SeriesCaptures.DailyRest | backend/internal/parsing/series.go:662-690 | The part, and release tokens from the end of the last of title, year, month and day on |
| SeriesCaptures.NextExactly | backend/internal/parsing/series.go:524-569 | The next pattern is asked for exactly when some match's numbers are unreadable, descending, or several with a fraction among them |
| SeriesCaptures.EpisodesOnCaptures | backend/internal/parsing/series.go:528-546 | The episodes run from the first to the last capture of the last match that has any, unless that is a count of the whole season |
| SeriesCaptures.AbsolutesOnCaptures | backend/internal/parsing/series.go:548-571 | The absolute numbers run from the first to the last capture of the last match with whole ones |
| SeriesCaptures.SpecialOnCaptures | backend/internal/parsing/series.go:555-565 | The special number is the fraction of the last match that has one alone |
| SeriesCaptures.FlagsOnCaptures | backend/internal/parsing/series.go:538-595 | Every flag, read off the groups that are present |
| SeriesCaptures.SeasonOnCaptures | backend/internal/parsing/series.go:599-617 | The season is the first numeric one of the first match, several different ones make a multi-season release, and episodes without any a mini-series of season 1 |
| SeriesCaptures.TokensOnCaptures | backend/internal/parsing/series.go:599-606 | Release tokens start where the last of the title, the numbers and the numeric seasons ends |
| SeriesCaptures.GroupReads | backend/internal/parsing/series.go:748-784 | A group's text and end are those of its last capture, and empty and zero without one |
| SeriesMatch.RangeInts | backend/internal/parsing/series.go:876-883 | The contiguous ascending range, empty when descending |
| SeriesMatch.MakeRange | backend/internal/parsing/series.go:877-883 | The loop builds that range |
| SeriesMatch.MakeDate | backend/internal/parsing/series.go:907-919 | A date is made exactly from Gregorian components, with those components |
| SeriesMatch.TakeEpisodes | backend/internal/parsing/series.go:528-548 | A malformed or descending episode pair asks for the next pattern; otherwise range, flags and reach are updated |
| SeriesMatch.TakeAbsolutes | backend/internal/parsing/series.go:550-573 | Fractional numbers are accepted alone and become specials; whole ones become a range |
| SeriesMatch.ReadMatch | backend/internal/parsing/series.go:524-597 | One turn of the loop composes these four steps |
| SeriesMatch.ReadAll | backend/internal/parsing/series.go:524-597 | All matches are accumulated in order, or one of them was unreadable |
| SeriesMatch.ReadSeasons | backend/internal/parsing/series.go:599-606 | The numeric season captures in order, and how far they reach |
| SeriesMatch.ReadStandard | backend/internal/parsing/series.go:522-621 | Refines the standard branch |
| SeriesMatch.ParseMatchCollection | backend/internal/parsing/series.go:494-689 | Refines the three-way outcome for every non-empty list of matches |
| Feed.RowIsSelection | backend/internal/feed/composer.go:128-170 | A row is a subsequence of its candidates, holds no key shown before and at most the target number of titles |
| Feed.RowRespectsCaps | backend/internal/feed/composer.go:172-192 | Counted in titles, a finished row exceeds neither the per-genre nor the per-language cap |
| Feed.RowIsMaximal | backend/internal/feed/composer.go:141-167 | In a row short of its target, every candidate passed over had been shown or would break a cap of the finished row |
| Feed.FeedRowsDisjoint | backend/internal/feed/composer.go:37-82 | Over a whole feed no key appears in two rows or repeats the hero, and no row is empty |
| Feed.KeyIdentifies | backend/internal/model/feed.go:85-88 | Equal keys mean equal media type and TMDB ID |
| Feed.PassesDiversity | backend/internal/feed/composer.go:173-192 | Decides on the running counters what the caps say of the selection |
| Feed.CountTitle | backend/internal/feed/composer.go:160-166 | Counters agree with the selection after a title is added |
| Feed.SelectItems | backend/internal/feed/composer.go:129-170 | The loop with counters and early exit refines greedy selection |
| Feed.BuildRow | backend/internal/feed/composer.go:85-126 | The row's items are selected against the keys shown so far, and exactly their keys are added |
| Feed.BuildFeed | backend/internal/feed/composer.go:38-82 | Rows are built in order over one shared set that starts with the hero's key; empty rows are left out |
| Feed.RowsRepeatExactly | backend/internal/feed/composer.go:141-167 | Rows drawn from a list of candidates are free of repeats for every target, caps and shown keys if and only if the list is, because the shown keys are not updated inside a row |
| Feed.FeedKeysDistinct | backend/internal/feed/composer.go:37-82 | When each row's candidates are distinct, no key occurs twice in the whole feed, and none already shown, such as the hero's, occurs at all |
| Feed.CountsTitlesExactly | backend/internal/feed/composer.go:160-166 | A genre's counter is the number of selected titles in it if and only if none of them lists it twice |
| Feed.CountsExactly | backend/internal/feed/composer.go:138-166 | The language counter is the number of selected titles of that language, and the genre counter grows by every listing |
| Feed.PassedOverExactly | backend/internal/feed/composer.go:141-192 | With room left, a candidate is passed over exactly when its key was shown, one of its genres has reached a positive cap, or its language, if it has any, has |
| Feed.RowsInOrder | backend/internal/feed/composer.go:37-82 | Each definition yields the row selected from its candidates under its own intent against everything shown before it, and empty rows are left out |
| Cadence.FirstWeekBound | backend/internal/cadence/cadence.go:47-78 | In any run in which each search is no earlier than the one before made it due, at most 63 fall in the seven days after the anchor, and at most 28 at a fixed cadence |
| Cadence.FirstWeekBoundTight | backend/internal/cadence/cadence.go:47-78 | The run that always searches the moment it is due reaches 63 |
| Cadence.DueTimesAdvance | backend/internal/cadence/cadence.go:50-78 | Due times strictly advance, by 15 minutes to a day after the release; before it a smart want is due exactly at the anchor |
| Cadence.BudgetSpent | backend/internal/cadence/cadence.go:62-78 | Each search in the first week uses up one unit of a budget that starts at 63 = 1 + 20 + 18 + 24 |
| Cadence.BackoffIsCappedDoubling | backend/internal/cadence/cadence.go:183-204 | For every attempt, those below one counting as one, the clamped shift never changes the result: the back-off is the unclamped doubling, capped, and no shift overflows |
| Cadence.DueTimesExactly | backend/internal/cadence/cadence.go:47-78 | The delay by the age of the release: an hour, a quarter of an hour to six hours, an hour to a day, six hours to a week, then a day; six hours at a fixed cadence |
| TitleKey.NormalizeIdempotent | backend/internal/parsing/match.go:37-77 | Normalizing a key again changes nothing, the all-articles fallback included |
| TitleKey.KeyHoldsLowerWordChars | backend/internal/parsing/match.go:37-77 | A key holds only letters and digits that lower-casing leaves alone |
| TitleKey.PunctuationAndCaseIgnored | backend/internal/parsing/match.go:37-77 | Any run of separators between two parts of a title is as good as any other, and case does not matter |
| TitleKey.ArticleIgnored | backend/internal/parsing/match.go:16-21 | An article between words, in any case, does not change the key as long as some other word remains |
| TitleKey.OuterArticleIgnored | backend/internal/parsing/match.go:16-21 | Likewise at the start and at the end of a title |
| TitleKey.KeyNonEmpty | backend/internal/parsing/match.go:70-76 | A title has a key exactly when it has a word |
| TitleKey.MatchLaws | backend/internal/parsing/match.go:79-97 | Matching is symmetric, reflexive exactly on titles with a key, and depends on the keys alone |
| TitleKey.MatchIgnoresArticles | backend/internal/parsing/match.go:79-97 | Adding an article and changing the separators never decides a match |
| TitleKey.NormalizeTitleForMatch | backend/internal/parsing/match.go:43-77 | The tokenizing loop with its flush and both joining loops refine the specified key |
| TitleKey.NumeralsMatch | backend/internal/parsing/match.go:79-97 | Keys that differ only in writing one number from 1 to 20 in arabic or roman numerals match, in either order, when the number occurs once in the arabic key |
| TitleKey.SequelsMatch | backend/internal/parsing/match.go:26-35 | Titles that end in the same number, arabic or roman in any case, match when the number does not occur in the rest of the key |
| TitleKey.SequelNumbers | backend/internal/parsing/match.go:79-97 | Behind the same text without digits, a number from 1 to 20 matches a roman numeral if and only if it is that number, or they are 11 and II |
| TitleKey.NumeralsExactly | backend/internal/parsing/match.go:30-41 | The table pairs each number from 1 to 20 with its own roman numeral |
| TitleKey.ArticlesExactly | backend/internal/parsing/match.go:22-24 | Exactly the six listed words are left out of a key |
| ErrorChain.AnnotationsAreTransparent | backend/internal/errors/errors.go:221-349 | For every chain and every sequence of Wrap and WithOp, kind, retry decision and field details are those of the original, wherever an override sits |
| ErrorChain.OperationSurvivesWrapping | backend/internal/errors/errors.go:325-336 | The operation recorded last stays readable through any number of wraps |
| ErrorChain.NotRetryableSticks | backend/internal/errors/errors.go:296-323 | An error marked not retryable stays so through any annotation |
| ErrorChain.IsRetryable | backend/internal/errors/errors.go:300-323 | One walk finds the first override, or else judges the first specified kind; untyped chains retry |
| ErrorChain.ComputeKind | backend/internal/errors/errors.go:263-270 | The first specified kind of the chain |
| ErrorChain.ComputeOp | backend/internal/errors/errors.go:326-336 | The first recorded operation of the chain |
| ErrorChain.ComputeFields | backend/internal/errors/errors.go:339-349 | The first non-empty field details of the chain |
| ErrorChain.AnswersOutermost | backend/internal/errors/errors.go:263-349 | Kind, fields, operation and retry override are those of the outermost frame of the chain that has one |
| ErrorChain.RetryableExactly | backend/internal/errors/errors.go:296-323 | Without an override an error is retryable unless its kind blames the request |
| ErrorChain.OperationRecorded | backend/internal/errors/errors.go:243-259 | A recorded operation can be read back |
| Numbers.ParseInvertsFormat | backend/internal/metadata/tmdb_provider.go:83-92 | strconv.ParseInt reads back what strconv.FormatInt writes, for every int64 |
| Numbers.FormatInjective | backend/internal/model/feed.go:86-88 | Different numbers have different decimal texts |
| Numbers.FormatExactly | backend/internal/metadata/tmdb_provider.go:94-95 | The text of an ID has a sign for negative numbers only and no zero in front |
| Numbers.AtoiExactly | backend/internal/parsing/series.go:628-637 | Where errors are ignored a number counts as itself and a text that is none as zero |
| Ordering.LessExactly | backend/internal/qualityprofile/evaluate.go:231 | Strings are ordered by their first difference, an end counting least |
| Sorting.SortedUnique | backend/cmd/corpusharvest/main.go:153-159 | When no two distinct elements tie, the sorted arrangement depends on the elements alone |
| Sorting.StableSortSorted | backend/internal/matcher/aggregator.go:393-395 | The library sort's contract: the result is sorted for every strict weak order (and a permutation, by the function's own contract) |
| Stability.StableSortStable | backend/internal/matcher/aggregator.go:393-395 | Elements that tie keep their input order |
| Stability.StableUnique | backend/internal/matcher/aggregator.go:393-395 | Being sorted and keeping ties in order determines the result |

## Left out

- QualityOrder.UpgradeRunsAreBounded: assumes what the database guarantees, 32-bit weights, and fewer than 2^32 formats in one profile.
- CSharpSource.EveryLineLexes: stops where C# rejects a source, at an interpolated string or conditional that is never closed; lines end in a newline, possibly after a carriage return. Which conditional symbols are defined is a parameter that may depend on the text before, so `#define` is not evaluated. Forms of C# later than its 6th edition, such as raw strings, are not part of this model.
- Literals.CsValueExactly: writes the two halves of a surrogate pair that a literal spells as two escapes separately; both are numeric escapes, which the decoder never reads as C# does.
- Metadata.CalmIsStable: is one-way beyond one swap, for the reason given above.
- TitleKey.KeyHoldsLowerWordChars: assumes that lower-casing is rune by rune, settles in one step and leaves ASCII lower-case letters alone, as the Unicode tables behind it do.
- Evidence.TrimGuarantees: the JSON encoding is an arbitrary size function of the kept payloads.
- Floating point: confidences and rule numbers are reals, so rounding near a threshold is not modelled.
- Rule traces, rejection details, log lines, timestamps and the parsed snapshot stored with a decision.
- The regular expressions of the parsing package and their engine; title, year and alternative-title extraction; languages, groups and hashes. Captures are inputs.
- Numeral words, NFKC folding and white-space tables of the series parser; time zones in the date window.
- The projection of a parsed release to its quality bin, tier bindings and indexer scoping: a bin is an opaque name.
- extractTestCases and extractDataArray, which cut the fixture into lines before the literals are scanned, and all file reading and writing.
- Resolvers and the network side of the TMDB client: their results are inputs.
- Fetching, ranking, hydration, hero choice and freshness in the feed: a row's ranked candidates are inputs, and its target is not negative.
- The state-based metadata refresh intervals: a table of constants read off one branch each.
- Joined errors, which errors.Unwrap treats as the end of a chain, and stack capture.
- Storage, HTTP, workers, authentication and the web client.
