# Verified models of Flui's in-memory logic

This project models the parts of Flui whose correctness rests on logic rather than on I/O, and
proves what each of them is for. `dafny verify dfyconfig.toml` checks all of it.

- **kafka-shell grammar** (`KafkaLexer`, `KafkaCommands`, `KafkaRoundTrip`): the quote-aware lexer, the
  flag splitter and the parsers of each verb. A canonical printer is inverted by the parser, every accepted
  line has a well-formed command, and lexing fails exactly on a line that ends inside a quote.
- **command suggestion** (`EditDistance`, `CommandSuggestion`): the table filled in place computes the least
  number of single-character edits, a metric; the hook suggests the earliest nearest command.
- **MDX cleaner** (`MdxFences`, `MdxInlineCode`, `MdxTags`, `MdxProse`, `MdxPieces`, `MdxPlaceholders`, `MdxTagWeight`,
  `MdxTidy`, `MdxUntouched`): the fence segmenter finds the one right segmentation of a text, unmasking inverts
  masking, printed component tags parse back, prose is cleaned piece by piece, and a body comes out as it went in
  exactly if nothing in it is to be removed, replaced or tidied.
- **token limiter and recorder** (`Quota`, `Recording`): a bound on the tokens of every 60-second window of
  every run, and what one call of the recorder may do.
- **profile secrets** (`ProfileSecrets`, `VaultAdoption`, `AcmeLedger`): which key opens a profile, the move to the
  vault that may be interrupted anywhere, and the pruned certificate ledger.
- **data-repair migrations** (`IntervalRepair`, `PeerRepair`): billed lifetimes that become a tiling, and
  peer rows that keep two unique indexes.
- **manifest search** (`ManifestScan`): a bounded recursion with a shared result list.

Loops and objects of the source are methods and classes, proved against specification functions; what
the source promises is then proved of those functions. Places where a promise does not hold carry the exact
condition under which it does, on what is known before the call, and a concrete input for which it fails:

- A typo near a command gets no suggestion when an *empty* id comes first among the nearest
  (`CommandSuggestion.TypoGetsSuggestion`, `CommandSuggestion.EmptyIdHidesNearCommand`). The CLI as it stands has
  no command with an empty id, so the case is hypothetical.
- A text with NUL characters of its own may not survive masking
  (`MdxInlineCode.UnmaskInvertsMask`, `MdxInlineCode.ForgedPlaceholderIsLost`).
- An instance that had cached the old key before the move to the vault goes on sealing under it, and what
  it seals then is lost (`VaultAdoption.SaveAfterMove`, `VaultAdoption.StaleCacheLosesSecrets`). `vault unlock` makes a
  fresh instance for the move (cli/src/commands/vault/unlock.ts line 157), which has cached nothing.
- The guard of the manifest search reads ten; a search returns more exactly if a later manifest stands in a
  directory around the tenth's (`ManifestScan.MoreThanTenExactly`), and at most twelve
  (`ManifestScan.AtMostTwelveDistinct`, `ManifestScan.TwelveAreReached`).
- Two masters created at the same instant can make the peer migration break the node index; whatever the
  database picks among ties, it succeeds exactly if the tables meet a condition stated on them alone
  (`PeerRepair.NodeIndexHoldsExactly`, `PeerRepair.SucceedsExactlyIfReady`, `PeerRepair.TiedMastersCanBreakTheIndex`).
- The heading of `scripts/kb-mdx.ts` says that fenced and inline code are never touched. Inline code is, in three
  places: imports (lines 173-176) and HTML comments (line 178) are stripped before code is masked, and a tag that is
  replaced takes the code of its attribute values along (`MdxUntouched.ImportTakesCode`,
  `MdxUntouched.CommentTakesCode`, `MdxUntouched.TagTakesCode`). Fenced code is, where the last pass (lines 208-213)
  trims lines and collapses empty ones (`MdxUntouched.FencedCodeIsTidied`). Prose without NUL comes out unchanged exactly if it holds no import, no
  comment and no tag to replace (`MdxUntouched.UntouchedProse`), so where every `<` lies in code exactly if no import
  and no comment is there (`MdxUntouched.CodeOnlyBracketsAreUntouched`); a whole body exactly if its prose does
  and its white space is tidy (`MdxUntouched.UntouchedMdx`).

## Model

| member | source | states |
|---|---|---|
| KafkaLexer.ScanQuoted | src/kafka-client/commands.ts:126-145 | the loop returns the text up to the closing quote and the position past it, always further on, or fails if the quote is never closed |
| KafkaLexer.Tokenize | src/kafka-client/commands.ts:148-177 | the lexing loop computes `Tokens` of the line |
| KafkaLexer.TokensInvertLine | src/kafka-client/commands.ts:148-177 | any list of strings, quoted and joined with spaces, lexes back to that list |
| KafkaLexer.LexingFailsExactlyInsideQuote | src/kafka-client/commands.ts:126-177 | lexing fails exactly when a character-by-character reader ends the line inside a quote, and names that quote |
| KafkaLexer.QuoteFreeTokensAreRuns | src/kafka-client/commands.ts:148-177 | without quotes the tokens are exactly the maximal runs of visible characters, in order |
| KafkaLexer.StartedLineHasToken | src/kafka-client/commands.ts:345-349 | a trimmed, non-empty line has a first token unless lexing fails, so reading the head never fails |
| KafkaCommands.SplitFlags | src/kafka-client/commands.ts:184-204 | the one-pass loop computes `SplitOf`, what the line's arguments split into |
| KafkaCommands.LastFlagCounts | src/kafka-client/commands.ts:184-204 | the positionals of a split are those of the line in order, and each flag has the last value the line gives it |
| KafkaCommands.ArgumentsAreTheLine | src/kafka-client/commands.ts:184-204 | the arguments of a line, positionals and flags with their values, make up the line |
| KafkaCommands.ArgumentsAreWritten | src/kafka-client/commands.ts:188-201 | a flag is written with an equals sign, with the token after it, or alone, and alone only if no token after it can be its value |
| KafkaCommands.ArgumentsAreUnique | src/kafka-client/commands.ts:184-204 | a line has only one list of arguments written so |
| KafkaCommands.ParseCommand | src/kafka-client/commands.ts:344-370 | trimming, lexing and dispatch together compute `Parse` |
| KafkaRoundTrip.ParseInvertsPrint | src/kafka-client/commands.ts:184-370 | every well-formed command, printed canonically, parses back to itself up to the raw line |
| KafkaRoundTrip.AcceptedIsWellFormed | src/kafka-client/commands.ts:225-370 | every accepted line yields the fields its verb needs, never both ends of a read, the right mutation flag and the trimmed line |
| KafkaRoundTrip.PrintIsNormalForm | src/kafka-client/commands.ts:344-370 | printing what a line parsed to gives a line that parses to the same command and prints to itself |
| KafkaRoundTrip.PrintIsInjective | src/kafka-client/commands.ts:20-35 | no two well-formed commands share a canonical line |
| EditDistance.Levenshtein | cli/src/hooks/command_not_found.ts:9-22 | the table filled in place ends in the least number of single-character edits |
| EditDistance.Neighbours | cli/src/hooks/command_not_found.ts:15-18 | neighbouring cells differ by at most one, which is why equal characters may take the diagonal with no minimum |
| EditDistance.DistanceIsLeastEditCount | cli/src/hooks/command_not_found.ts:9-22 | some chain of single insertions, deletions and substitutions attains the distance and none is shorter |
| EditDistance.ZeroOnlyForEqual | cli/src/hooks/command_not_found.ts:9-22 | the distance is zero for equal strings only |
| EditDistance.Symmetric | cli/src/hooks/command_not_found.ts:9-22 | the distance is symmetric |
| EditDistance.TriangleInequality | cli/src/hooks/command_not_found.ts:9-22 | the distance obeys the triangle inequality |
| EditDistance.LengthBounds | cli/src/hooks/command_not_found.ts:9-22 | the distance lies between the difference of the lengths and the longer length |
| CommandSuggestion.FindBest | cli/src/hooks/command_not_found.ts:26-37 | the scan finds the earliest command at least distance, with that distance |
| CommandSuggestion.CommandNotFound | cli/src/hooks/command_not_found.ts:24-51 | the message names the earliest nearest command if it is not empty and within the threshold, and none otherwise |
| CommandSuggestion.SuggestionIsUnique | cli/src/hooks/command_not_found.ts:28-51 | the suggestion is determined by the input and the ordered list of commands |
| CommandSuggestion.TypoGetsSuggestion | cli/src/hooks/command_not_found.ts:28-43 | a typo within k edits of a command, k within the threshold, gets a suggestion at most k edits away exactly when the empty id does not come first among the nearest, hence always when no id is empty |
| CommandSuggestion.EmptyIdHidesNearCommand | cli/src/hooks/command_not_found.ts:43 | with an empty id among them, a command one edit away can go unsuggested |
| MdxFences.SplitFences | scripts/kb-mdx.ts:21-54 | the loop finds the segments of the one right segmentation of the text |
| MdxFences.SegmentationIsUnique | scripts/kb-mdx.ts:21-54 | prose without opening lines, code from an opening line to the first that closes it or the end of the text: a text has at most one such segmentation |
| MdxFences.Groups | scripts/kb-mdx.ts:21-54 | every text has such a segmentation, and its lines are the text's lines |
| MdxFences.JoinInvertsSegments | scripts/kb-mdx.ts:56-58 | joining the segments of a text gives the text back |
| MdxFences.ResplitIsStable | scripts/kb-mdx.ts:21-54 | any one segment, without its added line break, splits into itself alone |
| MdxInlineCode.SpanIsPatternMatch | scripts/kb-mdx.ts:60 | the span at a position is the match the pattern's greedy, lazy and backtracking parts prefer |
| MdxInlineCode.MaskInlineCode | scripts/kb-mdx.ts:62-69 | the replacing pass numbers the spans as it meets them and collects them |
| MdxInlineCode.UnmaskInvertsMask | scripts/kb-mdx.ts:60-73 | unmasking gives a text back exactly when no NUL of its own outside code can be read as a placeholder |
| MdxInlineCode.UnmaskInvertsMaskWithoutNul | scripts/kb-mdx.ts:60-73 | so it does on every text without NUL, digits between placeholders included |
| MdxInlineCode.ForgedPlaceholderIsLost | scripts/kb-mdx.ts:71-73 | a text of a NUL, a digit and a NUL is not given back |
| MdxTags.ParseTag | scripts/kb-mdx.ts:91-131 | the scanning loop computes `TagAt` |
| MdxTags.TagEndsAtFirstTopLevelBracket | scripts/kb-mdx.ts:94-127 | a tag ends just past the first `>` outside quotes and at brace depth 0, and there is no tag without one |
| MdxTags.ParseInvertsPrint | scripts/kb-mdx.ts:91-131 | a printed tag, anywhere in any text, parses back to its name, closing and self-closing flags, attributes and end |
| MdxTags.AttrMapHoldsAll | scripts/kb-mdx.ts:114-119 | with distinct names the attributes read back are just the ones printed |
| MdxProse.Rewrite | scripts/kb-mdx.ts:180-198 | the rewriting loop lets each `<` give way to its replacement and copies all else |
| MdxProse.UnreplacedTextStays | scripts/kb-mdx.ts:180-198 | text in which no tag has a replacement is left as it is |
| MdxProse.PrintedTagReplacement | scripts/kb-mdx.ts:189-193 | a printed tag gets the replacement of the tag it was printed from, and the replacement covers it whole |
| MdxProse.PrintedTagIsReplaced | scripts/kb-mdx.ts:182-198 | prose without brackets, a printed tag that has a replacement, and any text after it are rewritten to the prose, the replacement, and what the text after it is rewritten to on its own |
| MdxProse.RewrittenShifts | scripts/kb-mdx.ts:182-198 | what is written from a position on does not depend on the text before it |
| MdxProse.CleanProse | scripts/kb-mdx.ts:172-200 | imports and comments removed, code masked, tags rewritten, code put back, in that order |
| MdxPieces.PiecesAreCleaned | scripts/kb-mdx.ts:172-200 | prose made of plain text, inline code and printed tags, code in attribute values and `<` that open no tag included, is cleaned piece by piece: a tag gives way to its own replacement or stays, plain text and code come through |
| MdxPieces.CodeInTitleComesBack | scripts/kb-mdx.ts:146-152 | a link card whose title holds code is replaced by that title in bold, the code as it was |
| MdxPieces.CodeFreeTagIsReplaced | scripts/kb-mdx.ts:186-200 | a tag whose values hold no code gives way to its replacement as it is, unmasking adding nothing |
| MdxPieces.PiecesAreMasked | scripts/kb-mdx.ts:60-69 | masking such prose numbers its codes, those in tags as well, and copies the rest |
| MdxPieces.ReplacementAvoidsNul | scripts/kb-mdx.ts:138-170 | no replacement brings in a NUL that its tag did not hold, so none can be taken for a placeholder |
| MdxTagWeight.ReplacedIsLighter | scripts/kb-mdx.ts:83-170 | what replaces a tag stands for fewer `<` than the tag, each attribute value being taken once at most |
| MdxUntouched.UntouchedProse | scripts/kb-mdx.ts:172-200 | cleaning prose without NUL leaves fewer `<`, or else fewer characters, or else the prose as it was, and this exactly if it has no import, no comment and no tag to replace |
| MdxUntouched.CodeOnlyBracketsAreUntouched | scripts/kb-mdx.ts:172-200 | prose without NUL whose every `<` lies in inline code comes out unchanged exactly if it has no import and no comment |
| MdxProse.NothingToClean | scripts/kb-mdx.ts:172-200 | with NULs too, prose with no import, comment, replaceable tag or forged placeholder comes out unchanged |
| MdxUntouched.ImportTakesCode | scripts/kb-mdx.ts:173-176 | code inside an import statement goes with it |
| MdxUntouched.CommentTakesCode | scripts/kb-mdx.ts:177-179 | a comment inside code is taken out of it |
| MdxUntouched.TagTakesCode | scripts/kb-mdx.ts:177-198 | code in an attribute value goes with a tag whose replacement does not show it |
| MdxProse.CleanBody | scripts/kb-mdx.ts:202-207 | a body is cleaned segment by segment, code passing through |
| MdxProse.UntouchedBody | scripts/kb-mdx.ts:202-207 | a body whose prose is untouched is given back whole |
| MdxTidy.TidiedIsSame | scripts/kb-mdx.ts:208-213 | the last pass leaves a text as it is exactly if no line ends in a blank or is blank without being empty, no three line breaks follow each other, and it is trimmed |
| MdxUntouched.CleanMdx | scripts/kb-mdx.ts:202-214 | the segments cleaned and joined, then the pass over white space |
| MdxUntouched.UntouchedMdx | scripts/kb-mdx.ts:202-214 | a body without NUL comes out as it went in exactly if each of its prose segments is to be left alone and the whole is tidy, code included |
| MdxUntouched.FencedCodeIsTidied | scripts/kb-mdx.ts:208-213 | a body that is all one fenced code loses blanks at the end of a line |
| Quota.QuotaWindow.Pace | scripts/assistant-eval/quota.ts:10-20 | returns once the sum of the entries left is under the budget or none is left; all that is left is at most a window old, all that went is pruned from the front |
| Quota.QuotaWindow.Add | scripts/assistant-eval/quota.ts:21-23 | appends the tokens at the present time and completes a turn of the run |
| Quota.RateBound | scripts/assistant-eval/quota.ts:7-25 | in every run of turns, the tokens added in any 60-second window total at most the budget less one, plus the largest add |
| Quota.RateBoundIsAttained | scripts/assistant-eval/quota.ts:7-25 | for every budget and every largest add that can fill the window, a run attains that total |
| Recording.Recorder.RecordTurn | scripts/assistant-eval/record.ts:28-94 | appends exactly the row of the attempt the retries settle on, no sooner than the waits between them allow; none if the key was saved before or a run throws; earlier rows stay |
| Recording.AtMostEightRuns | scripts/assistant-eval/record.ts:30-62 | a question is run at most 8 times, again only after a silent error or a rate limit, and what it settles on has used up the retries it still shows a need for |
| Recording.RetriesWait | scripts/assistant-eval/record.ts:36-61 | a recorded row took 800 ms for each run, 65 s more for each quota retry and at least 10 s more for each other |
| Recording.RecordAll | scripts/assistant-eval/record.ts:18-95 | whatever a recorder adds to an unused window, no 60 seconds hold more than the rate bound |
| ProfileSecrets.GetterGivesTheKey | cli/src/lib/config-storage.ts:101-159 | for a profile sealed under one key the getter gives that key exactly if it is at hand, and never another |
| ProfileSecrets.ConfigStorage.EncryptionKey | cli/src/lib/config-storage.ts:101-136 | resolves the key once, by the first candidate that opens a sealed value, and caches it; gives one exactly if the profile's own is at hand, else names what is in the way |
| ProfileSecrets.ConfigStorage.SealedProbe | cli/src/lib/config-storage.ts:139-150 | gives the API key, else some token, else some credential, else nothing |
| ProfileSecrets.ConfigStorage.Decrypt | cli/src/lib/config-storage.ts:259-269 | opens a value exactly if its key is at hand |
| ProfileSecrets.ConfigStorage.SaveToken | cli/src/lib/config-storage.ts:321-333 | the token is saved with its dates and all else stays, or nothing changes |
| ProfileSecrets.ConfigStorage.GetToken | cli/src/lib/config-storage.ts:338-357 | the plaintext last saved, nothing if there is none, or the error that names the obstacle, exactly if no key is at hand |
| ProfileSecrets.ConfigStorage.RemoveToken | cli/src/lib/config-storage.ts:381-385 | only that token goes |
| ProfileSecrets.ConfigStorage.SaveCredentials | cli/src/lib/config-storage.ts:398-402 | the credentials are saved and all else stays, or nothing changes |
| ProfileSecrets.ConfigStorage.GetCredentials | cli/src/lib/config-storage.ts:407-425 | as for tokens |
| ProfileSecrets.ConfigStorage.RemoveCredentials | cli/src/lib/config-storage.ts:432-436 | only those credentials go |
| ProfileSecrets.ConfigStorage.SetApiKey | cli/src/lib/config-storage.ts:554-558 | the API key is saved and all else stays, or nothing changes |
| ProfileSecrets.ConfigStorage.GetApiKey | cli/src/lib/config-storage.ts:564-583 | the environment's key, else the stored one, else nothing; the reason is kept when there was one to open, and left as it was when there was none |
| ProfileSecrets.PerformAll | cli/src/lib/config-storage.ts:255-583 | every run of saves, removals and reads keeps the profile under one key, and each operation answers, or throws, exactly as a plain state of plaintexts without keys or sealing does; what it leaves cached is `CacheAfter` of how it began |
| ProfileSecrets.ReadsReturnLastSaved | cli/src/lib/config-storage.ts:321-436 | what a token, credential or API key read answers from is the last value saved and not removed since |
| ProfileSecrets.UsableStays | cli/src/lib/config-storage.ts:101-136 | a profile has a key from the start, or from when it is empty with some key at hand, and then for good |
| VaultAdoption.AdoptVaultKey | cli/src/lib/config-storage.ts:215-253 | what the move leaves on disk for each point it may stop at, how many values it moved, and that it throws exactly if a value opens with neither key |
| VaultAdoption.AnyStopLosesNothing | cli/src/lib/config-storage.ts:205-253 | wherever a run stops, every secret opens with an available key and every plaintext is what it was |
| VaultAdoption.RerunCompletesTheMove | cli/src/lib/config-storage.ts:205-253 | after any interrupted runs, one run to the end leaves all under the vault and no key file, and a further run changes nothing |
| VaultAdoption.SaveAfterMove | cli/src/lib/config-storage.ts:101-333 | an instance that runs the move and then saves a token keeps the profile under the vault exactly if it had not cached another key; else the token opens with no key that is left |
| VaultAdoption.MoveThenPerform | cli/src/lib/config-storage.ts:101-583 | the move on an instance, from any disk that it can complete, then any operations: with a fresh cache they answer as the plain state; with another the move ends the same and the cache is stale |
| VaultAdoption.PerformAcrossMove | cli/src/lib/config-storage.ts:101-583 | any run of operations, the move, and any more on one instance answers as the plain state, in which the move is nothing, if what the operations before it cached is fresh; if not, the profile is under the vault all the same, its plaintexts those of the plain state, and the old key still cached |
| VaultAdoption.CacheStaysFresh | cli/src/lib/config-storage.ts:101-136 | known before the run: the cache is fresh exactly if it held the vault key, or was empty and the profile is under the vault already or has no secret left when an operation first asks for the key |
| VaultAdoption.StaleCacheLosesSecrets | cli/src/lib/config-storage.ts:101-133 | a profile whose read before the move caches the old key, which it goes on giving after the move though nothing left opens with it |
| AcmeLedger.CountIsOverFullHistory | cli/src/lib/config-storage.ts:638-661 | after any run of reads, records and counts, a count is over all issuances ever recorded that are younger than 168 hours |
| AcmeLedger.Ledger.GetAcmeIssuances | cli/src/lib/config-storage.ts:638-646 | returns and stores the young entries of the whole history |
| AcmeLedger.Ledger.RecordAcmeIssuance | cli/src/lib/config-storage.ts:648-652 | prunes, then appends the entry |
| AcmeLedger.Ledger.CountAcmeIssuances | cli/src/lib/config-storage.ts:654-661 | the number of matching young entries of the whole history |
| IntervalRepair.Database.Up | src/migrations/1790000000013-CloseDeletedClusterIntervals.ts:25-61 | the updates in order; the unique index can always be created |
| IntervalRepair.NextStartIsNext | src/migrations/1790000000013-CloseDeletedClusterIntervals.ts:29-36 | `LEAD` is the start of a next open row of the node, and no later one starts earlier |
| IntervalRepair.EveryInstantIsBilledOnce | src/migrations/1790000000013-CloseDeletedClusterIntervals.ts:10-17 | the formerly open lifetimes of a node bill it exactly once at each instant from their earliest start to its final end, and never else |
| IntervalRepair.FinalEndExists | src/migrations/1790000000013-CloseDeletedClusterIntervals.ts:46-53 | each node with an open lifetime has one final end |
| IntervalRepair.ChainingConservesBilledTime | src/migrations/1790000000013-CloseDeletedClusterIntervals.ts:26-40 | chaining alone neither adds nor loses a billed instant |
| IntervalRepair.EndsNeverPrecedeStarts | src/migrations/1790000000013-CloseDeletedClusterIntervals.ts:14-17 | no lifetime is made to end before it starts |
| IntervalRepair.OnlyOpenRowsAreEnded | src/migrations/1790000000013-CloseDeletedClusterIntervals.ts:26-54 | closed rows are untouched and open ones change in their end only |
| IntervalRepair.StaysOpenIfLast | src/migrations/1790000000013-CloseDeletedClusterIntervals.ts:10-17 | a row stays open exactly if it is the last open one of its node and its cluster is not deleted |
| IntervalRepair.AtMostOneStaysOpen | src/migrations/1790000000013-CloseDeletedClusterIntervals.ts:56-60 | at most one row of each node stays open |
| IntervalRepair.NoneOpenOnGoneCluster | src/migrations/1790000000013-CloseDeletedClusterIntervals.ts:42-54 | no node or volume row stays open on a deleted cluster |
| IntervalRepair.SecondRunChangesNothing | src/migrations/1790000000013-CloseDeletedClusterIntervals.ts:8 | a second run changes neither table |
| PeerRepair.Database.Up | src/migrations/1790000000041-ControlPeerPerNode.ts:17-60 | the updates in order, with any choice among ties; which index a run violates, if any, and never one if the rows are ready |
| PeerRepair.NewColumnHasOnePrimary | src/migrations/1790000000041-ControlPeerPerNode.ts:18-26 | with the column just added at most one live row is primary |
| PeerRepair.MarkingKeepsOnePrimary | src/migrations/1790000000041-ControlPeerPerNode.ts:24-26 | with the column there before, exactly if no other live row was primary |
| PeerRepair.EarlierStepsKeepOnePerNode | src/migrations/1790000000041-ControlPeerPerNode.ts:18-40 | the steps before the assignment keep at most one live row for each node |
| PeerRepair.AssigningKeepsOnePerNode | src/migrations/1790000000041-ControlPeerPerNode.ts:41-53 | the assignment keeps it exactly if no other live row holds the node |
| PeerRepair.NodeIndexHoldsExactly | src/migrations/1790000000041-ControlPeerPerNode.ts:27-53 | every choice of masters keeps one live row for each node, exactly if each other live row on a newest master of the primary's cluster is a member row and that master is the only newest one |
| PeerRepair.SucceedsExactlyIfReady | src/migrations/1790000000041-ControlPeerPerNode.ts:17-60 | the whole migration succeeds whatever the database picks, exactly if, for each row it may mark, one live primary results and its node is free; it is given that only control rows are primaries |
| PeerRepair.DistinctTimesAgree | src/migrations/1790000000041-ControlPeerPerNode.ts:28-47 | masters created at distinct times are found again by the second query |
| PeerRepair.BothIndexesHold | src/migrations/1790000000041-ControlPeerPerNode.ts:17-60 | distinct master times, live control rows without a node, and no other live primary make the rows ready, with the column there before or not |
| PeerRepair.TiedMastersCanBreakTheIndex | src/migrations/1790000000041-ControlPeerPerNode.ts:27-53 | with two masters created together and a member row on one, the rows are not ready |
| ManifestScan.FindManifestsBelow | cli/src/commands/deploy.ts:1234-1259 | the recursion pushing to the shared list terminates and leaves `Scanned` in it |
| ManifestScan.ResultsAreEligible | cli/src/commands/deploy.ts:1234-1259 | every result is a manifest one to three directories down, none of them skipped or hidden |
| ManifestScan.UnguardedFindsEligible | cli/src/commands/deploy.ts:1234-1259 | without its guard the search would find just the eligible manifests |
| ManifestScan.FirstTenThenTheWayOut | cli/src/commands/deploy.ts:1234-1259 | with unique names it returns the first ten of these, in order, and of the others just those standing in a directory around the tenth's |
| ManifestScan.MoreThanTenExactly | cli/src/commands/deploy.ts:1240-1241 | it returns more than ten exactly if there is such another |
| ManifestScan.AtMostTwelveDistinct | cli/src/commands/deploy.ts:1240-1241 | with unique names in each directory there are at most twelve results, each once |
| ManifestScan.TwelveAreReached | cli/src/commands/deploy.ts:1240-1241 | and a well-formed tree reaches twelve |
| ManifestScan.FewerThanTenIsComplete | cli/src/commands/deploy.ts:1234-1259 | a search that returns fewer than ten has found every eligible manifest of the directories that can be listed |

## Left out

- KafkaCommands.ParseCommand: `Number` is modelled on blank text and decimal digits only; the hexadecimal, exponent, signed and fractional forms it also accepts are rejected here, and naturals past 2^53 are not rounded.
- KafkaCommands.SplitFlags: flag names such as `__proto__`, which a JavaScript object treats specially, are ordinary names here.
- Strings are sequences of characters, not of UTF-16 code units; lower-casing and capitalising cover the ASCII letters, which is all the verbs of the shell need.
- `src/kafka-client/client.ts` and `executor.ts`: calls into kafkajs.
- `stripHtmlComments` and `leftoverComponents` of `scripts/kb-mdx.ts`: the first is the comment pass of prose over the same segments, the second only lists what is left.
- Quota.QuotaWindow.Pace: one caller at a time, on a clock that never runs backwards and whose waits last at least their length.
- Recording.Recorder.RecordTurn: what one run answers is a parameter; costs, checks, screenshots and saving to disk are left out of the row.
- ProfileSecrets.ConfigStorage.SaveToken: sealing is ideal authenticated encryption, so a value opens under one key only and the random vector is left out; files are read and written whole.
- ProfileSecrets.ConfigStorage.SealedProbe: the order in which providers are tried is left open, so results hold for every order.
- ProfileSecrets.ConfigStorage.GetCredentials: the JSON encoding of credentials is left out.
- `getApiKeyOrThrow`, `listProviders`, API and dashboard URLs, preferences: one-branch readers of the same file.
- VaultAdoption.AdoptVaultKey: an interruption falls between two file operations, not within one.
- AcmeLedger.Ledger.GetAcmeIssuances: one clock reading for each pass over the entries.
- PeerRepair.Database.Up: the handshake column, the address index and the rollback of a failed migration.
- IntervalRepair.Database.Up: row ids are numbers in their order; `down` is not modelled.
- ManifestScan.FindManifestsBelow: a directory tree is a finite value, so symbolic links, which are neither files nor directories to the listing, are its other entries.
- All other commands, controllers, services and migrations: I/O, user interface and schema changes.
