# njump text layout and page data, modelled in Dafny

njump renders Nostr events as web pages and as preview images. This project
models the decision logic at the heart of that rendering:

- **Script table** (`scripts.dfy`): at startup, the table of Unicode script
  ranges is built from the canonical range list, grouped by the eleven
  supported scripts. Each character is then classified with a binary search
  (`lookupScript`).
- **Paragraph resolver** (`resolver.dfy`):
  `getLanguageAndScriptAndDirectionAndFont` tallies the classes of a
  paragraph's characters in an eleven-slot ranking and stops early on a
  strict majority. Otherwise it takes the most frequent class, and derives
  the script, the font, the direction (RTL exactly for Arabic) and the
  language.
- **Quote expander** (`quotes.dfy`): `quotesAsBlockPrefixedText` replaces
  `nostr:note1…`/`nostr:nevent1…` references in lines of text by
  block-marker lines holding the quoted event's content.
- **Square crop** (`imaging.dfy`): `cropToSquare` copies the centred
  `min(W,H)`-sided window of a picture into a fresh one.
- **Page data helpers** (`eventdata.dfy`, from `data.go`):
  - the kind-1063 MIME tests and `DisplayImage`;
  - `NpubShort`;
  - the text `Preview`;
  - the relay copies and relay filter;
  - the image/video choice;
  - the kind description.
- **Shared modules**: `text.dfy` models the Go string functions the code
  relies on (TrimSpace, Split, Join, Contains, `%d`, UTF-8 length).
  `wrappers.dfy` holds `Option`.

Strings are sequences of characters (Go runes). Code that updates state step
by step is written as methods with loops:
- the table build;
- the lookup;
- the tally;
- the quote expansion;
- the crop;
- the Preview, relay and media loops.

Each method is proved equal to a specification function, and the properties
are proved about those functions. Collaborators defined outside these files
are parameters: the regular expression matchers, `getEvent`, `maxIndex`,
`trimProtocol`, `shortenNostrURLs`, `kindNames`, `BLOCK` and the language
detector.

## Model

| member | source | states |
|---|---|---|
| Scripts.SupportedScriptsDistinct | image_utils.go:21-36 | there are eleven supported scripts and no two are the same |
| Scripts.BuildScriptRanges | image_utils.go:65-76 | the startup loop produces exactly the grouped table `ScriptTable(src)` |
| Scripts.GroupMembers | image_utils.go:66-74 | an entry is in a script's group iff it is a tagged source row of that script |
| Scripts.TableUpToMembers | image_utils.go:65-76 | after the first n scripts, the table holds exactly the tagged source rows of those scripts |
| Scripts.GroupHas | image_utils.go:66-74 | every source row of a supported script is in that script's group, tagged with its position |
| Scripts.TableUpToSound | image_utils.go:65-76 | every entry of the partial table is a tagged source row of one of the first n scripts |
| Scripts.TableUpToComplete | image_utils.go:65-76 | every source row of one of the first n scripts is in the partial table |
| Scripts.TableMembers | image_utils.go:65-76 | the table holds exactly the source rows of supported scripts, each tagged with its script's position |
| Scripts.TableWellTagged | image_utils.go:65-76 | every entry has `0 <= Pos < 11` and `Script == supportedScripts[Pos]` |
| Scripts.GroupPositions | image_utils.go:68-73 | every entry of a script's group carries that script's position |
| Scripts.TableUpToPositions | image_utils.go:65-76 | positions after n scripts are below n and never decrease along the table |
| Scripts.TableGroupedBySupportedOrder | image_utils.go:65-76 | entries appear grouped in supportedScripts order |
| Scripts.WithPosIn | image_utils.go:65-76 | an entry selected by position is in the table and has that position |
| Scripts.WithPosConcat | image_utils.go:65-76 | selecting one position's entries distributes over concatenation |
| Scripts.WithPosOfGroup | image_utils.go:66-74 | a group contains only its own position's entries |
| Scripts.WithPosOfTableUpToStep | image_utils.go:65-76 | one more outer iteration adds exactly that script's group |
| Scripts.WithPosOfTableUpTo | image_utils.go:65-76 | inside the partial table, a position's entries are its group, in source order |
| Scripts.TableKeepsSourceOrder | image_utils.go:65-76 | inside each group, source order is kept |
| Scripts.Search | image_utils.go:244-254 | the binary search answers only an index inside the searched window whose entry contains the character |
| Scripts.LookupScript | image_utils.go:242-256 | lookupScript terminates and equals `Classify`; a non-zero answer is an index whose entry contains the character |
| Scripts.NotRightOf | image_utils.go:247-248 | in a sorted, disjoint table, nothing at or right of h contains a character below h's start |
| Scripts.NotLeftOf | image_utils.go:249-250 | in a sorted, disjoint table, nothing at or left of h contains a character above h's end |
| Scripts.SearchNarrows | image_utils.go:244-254 | when every probe sends the search towards entry k, a window holding k is searched successfully |
| Scripts.SearchFinds | image_utils.go:244-254 | in a sorted, disjoint table, the search finds an entry whenever the window holds one that contains the character |
| Scripts.LookupComplete | image_utils.go:242-256 | in a sorted, disjoint table, the lookup finds the entry that contains the character |
| Scripts.ClassifyComplete | image_utils.go:242-256 | in a table sorted and disjoint by position, the lookup returns the containing entry's index |
| Scripts.LookupScriptPos | image_utils.go:242-256 | corrected lookup: answers the found entry's Pos, always below 11, or 0 when none contains the character |
| Scripts.LookupAnswersTableIndex | image_utils.go:252 | counterexample: in the one-row Hebrew table, a Hebrew letter classifies as 0 (unknown) while its entry's position is 3 |
| Scripts.LookupAnswersPastLastPosition | image_utils.go:252 | counterexample: in a twelve-row Han table, a character of the last row classifies as 11, past the eleven positions, while its entry's position is 9 |
| Scripts.HebrewRowTable | image_utils.go:65-76 | a one-row Hebrew source builds a one-entry table with position 3 |
| Scripts.SortedHeadFirst | image_utils.go:244-254 | the head of a sorted table starts no later than any entry |
| Scripts.PrependSorted | image_utils.go:244-254 | prepending an entry that starts no later keeps the table sorted |
| Scripts.InsertedAfterHead | image_utils.go:244-254 | inserting after the head keeps every entry at or after the head's start |
| Scripts.InsertByStart | image_utils.go:244-254 | insertion into a sorted table keeps it sorted and adds exactly the entry |
| Scripts.SortByStart | image_utils.go:244-254 | the corrected table is sorted by start and a permutation of the built table |
| Scripts.SortKeepsEntries | image_utils.go:65-76 | sorting keeps exactly the table's entries, so disjoint, well-tagged entries sort into a searchable, well-tagged table |
| Scripts.TableDisjoint | image_utils.go:65-76 | a disjoint, well-formed source list gives a disjoint table |
| Scripts.SortedTableSearchable | image_utils.go:65-76 | the sorted table is searchable, well tagged and has the same entries |
| Scripts.SortedTableClassifies | image_utils.go:242-256 | with the sorted table and the Pos answer, a character of a supported script's range classifies as that script |
| Scripts.SortedTableDefaults | image_utils.go:255 | a character in no supported range classifies as 0 (unknown) |
| Scripts.GroupEmpty | image_utils.go:66-67 | a script with no source rows contributes nothing |
| Scripts.TableUpToStable | image_utils.go:65-76 | scripts with no rows leave the table unchanged |
| Scripts.UnsortedTableMissesRange | image_utils.go:65-76 | counterexample: in the unsorted table built from Hebrew, Hiragana, Katakana rows, U+05D0 is in entry 2 but the search misses it and answers 0 |
| Scripts.ThreeRowTable | image_utils.go:65-76 | the table built from Hebrew, Hiragana and Katakana rows is ordered Hiragana, Katakana, Hebrew |
| Resolver.Count | image_utils.go:169 | a class count never exceeds the number of characters |
| Resolver.Ranking | image_utils.go:161 | the ranking has eleven slots |
| Resolver.EarlyExitFrom | image_utils.go:167-175 | an early exit answers a class that occurs in the paragraph |
| Resolver.EarlyExitWitness | image_utils.go:170 | an early exit happens at a character after the threshold whose class count exceeds the threshold |
| Resolver.ResolvedIndex | image_utils.go:167-178 | with every class below 11 and an argmax, the resolved index is below 11 |
| Resolver.DirectionOf | image_utils.go:180-184 | the direction is RTL exactly when the script is Arabic |
| Resolver.ClassAt | image_utils.go:168 | one character's lookup equals its class |
| Resolver.RankScripts | image_utils.go:161-178 | the tally loop with its early exit answers `ResolvedIndex` of the paragraph's classes, below 11 |
| Resolver.ResolveParagraph | image_utils.go:155-193 | script and font are those at the resolved index; direction is RTL iff Arabic; language is the detector's answer, else "en-us" |
| Resolver.TallyAdvance | image_utils.go:167-175 | one character adds one to its class's count; the early-exit test is the one the loop makes |
| Resolver.TallyStep | image_utils.go:168-174 | one increment turns the ranking of the characters before a position into the ranking up to it; the exit test on that slot is the early exit's test there |
| Resolver.CountPrefix | image_utils.go:169 | counts over a prefix never exceed counts over the paragraph |
| Resolver.CountsShareParagraph | image_utils.go:169 | two classes' counts add up to at most the paragraph length |
| Resolver.CountIsMultiplicity | image_utils.go:169 | the count is the class's multiplicity in the paragraph |
| Resolver.CountedOccurs | image_utils.go:169 | a positive count means the class occurs |
| Resolver.OthersAreMinorities | image_utils.go:170 | a strict majority leaves every other class below half |
| Resolver.PrefixMajority | image_utils.go:170 | more than n/2 (integer division) in a prefix is a strict majority of the whole paragraph |
| Resolver.EarlyExitIsStrictMajority | image_utils.go:170-173 | the early-exit class holds a strict majority, and every other class holds less than half |
| Resolver.FallbackIsMostFrequent | image_utils.go:176-178 | without an early exit, the resolved class is a most frequent one |
| Resolver.MajorityWins | image_utils.go:161-178 | a strict-majority class is resolved, early or not |
| Resolver.ReorderingKeepsMajority | image_utils.go:161-178 | reordering a paragraph does not change a strict-majority resolution |
| Resolver.EmptyParagraphResolvesToDefault | image_utils.go:161-178 | an empty paragraph has all counts 0 and resolves to index 0, left to right |
| Resolver.Classes | image_utils.go:167-168 | one class per character |
| Resolver.ClassesOf | image_utils.go:167-168 | the classes are the lookups of the characters |
| Resolver.SameClasses | image_utils.go:167-168 | a sequence that agrees with every lookup is the classes |
| Resolver.ClassesByPos | image_utils.go:167-168 | one corrected class per character |
| Resolver.ClassesByPosOf | image_utils.go:167-168 | the corrected classes are the Pos lookups |
| Resolver.SameClassesByPos | image_utils.go:167-168 | a sequence that agrees with every Pos lookup is the corrected classes |
| Resolver.ClassifyPosBound | image_utils.go:252 | with a well-tagged table, the Pos answer is below 11 |
| Resolver.ClassByPosAt | image_utils.go:168 | one character's corrected lookup equals its class |
| Resolver.RankScriptsByPos | image_utils.go:161-178 | corrected tally: needs only a well-tagged table and answers an index below 11 |
| Resolver.ResolveParagraphByPos | image_utils.go:155-193 | the corrected resolver, with the same script, font, direction and language guarantees and no precondition on the classes |
| Resolver.CountAll | image_utils.go:169 | a paragraph of a single class counts fully |
| Resolver.SingleScriptParagraphResolves | image_utils.go:155-193 | with the sorted table and the Pos answer, a paragraph of one supported script resolves to that script |
| Quotes.Texts | image_utils.go:128 | one match text per match, each the line's text at that match |
| Quotes.Nip19 | image_utils.go:130 | the identifier is the match text minus its six-character "nostr:" prefix |
| Quotes.Step | image_utils.go:132-143 | one match keeps `b` a valid index of the output and the block count tied to `b` |
| Quotes.FoldMatches | image_utils.go:123-144 | the inner loop adds one block per success and keeps `b` equal to the new blocks added |
| Quotes.FoldMatchesStep | image_utils.go:125-144 | one iteration of the inner loop is one `Step` |
| Quotes.Trailing | image_utils.go:146-149 | at most one trailing block |
| Quotes.ExpandLinesStep | image_utils.go:112-150 | one iteration of the outer loop expands one more line |
| Quotes.QuotesAsBlockPrefixedText | image_utils.go:106-153 | the loop over the lines produces `ExpandLines` of the input |
| Quotes.ExpandLineInto | image_utils.go:113-149 | the loop body produces `ExpandLine` of the output so far |
| Quotes.ExpandMatchesInto | image_utils.go:123-144 | the loop over a line's matches produces `FoldMatches` from the output so far and leaves `i` at the last match |
| Quotes.AtLeastOneBlockPerLine | image_utils.go:112-150 | every line yields at least one block |
| Quotes.UnmatchedLineCopied | image_utils.go:115-118 | a line with no match is copied unchanged as one block |
| Quotes.Successes | image_utils.go:139-143 | the number of successful fetches is at most the number of matches |
| Quotes.FoldCountsSuccesses | image_utils.go:123-144 | `b` ends as the number of successful fetches of the line |
| Quotes.FailedFetchAppendsToBlockB | image_utils.go:133-136 | a failed fetch adds no block and appends the match text to block `b`, the line's success count so far |
| Quotes.MatchedLineBlockCount | image_utils.go:121-149 | a matched line adds its head, one block per successful fetch and the non-blank trailing text |
| Quotes.Quoted | image_utils.go:140 | each quote block is the marker, a space and the content, one per match |
| Quotes.FoldAppendsQuotes | image_utils.go:125-144 | with every fetch successful, the inner loop appends the quote blocks in match order |
| Quotes.AllFetchedLine | image_utils.go:121-149 | with every fetch successful, a line gives head, quote blocks and non-blank trailing text |
| Quotes.FoldNoneFetched | image_utils.go:133-136 | with every fetch failed, all match texts are glued onto block 0 of the whole output |
| Quotes.QuotesOf | image_utils.go:139-143 | one quote block per successful fetch, in match order |
| Quotes.Landing | image_utils.go:133-136 | the failed match texts that land on a given block, at most one per match |
| Quotes.LandingBeyond | image_utils.go:133-136 | no failed text lands past the line's success count |
| Quotes.LandingFailedStep | image_utils.go:133-136 | a failed match text lands on block `b` only, `b` being the success count before it |
| Quotes.FailedBlockAt | image_utils.go:133-136 | after a failed fetch, block `b` gains the match text and every other block is unchanged |
| Quotes.LandsSucceeded | image_utils.go:139-143 | a successful fetch appends its quote block, on which nothing has landed |
| Quotes.LandsFailed | image_utils.go:133-136 | a failed fetch appends its match text to block `b`, which exists |
| Quotes.FoldMatchesLands | image_utils.go:123-144 | for any outcome of the fetches, each block after the inner loop is its starting value or the next quote block, followed by the failed match texts that landed on it |
| Quotes.ExpandLineBlocks | image_utils.go:121-149 | for any outcome of the fetches, a matched line gives the earlier blocks and its head, then one quote block per success in match order, each followed by the failed texts landed on it (including blocks of earlier lines), then the non-blank trailing text |
| Quotes.QuotesOfAllFetched | image_utils.go:139-143 | with every fetch successful, the quote blocks are those of `Quoted` and nothing lands anywhere |
| Quotes.TextBetweenMatchesDropped | image_utils.go:122-149 | the text between two matches is not emitted |
| Quotes.FoldMatchesFixed | image_utils.go:133-136 | corrected inner loop: it never shrinks the output |
| Quotes.FoldFixedKeepsEarlierBlocks | image_utils.go:133-136 | the corrected inner loop leaves earlier blocks unchanged |
| Quotes.ExpandLineFixedAppends | image_utils.go:112-150 | corrected: a line's blocks are appended after the earlier ones, which stay unchanged |
| Quotes.ValidInputPrefix | image_utils.go:112-113 | a prefix of valid input is valid input |
| Quotes.ValidInputConcat | image_utils.go:112-113 | concatenated valid inputs are valid input |
| Quotes.ExpandLinesFixedLast | image_utils.go:112-150 | the corrected expansion of the lines extends that of all but the last line |
| Quotes.ExpandLinesFixedConcat | image_utils.go:112-150 | corrected: expanding two runs of lines is the concatenation of their expansions, so blocks follow line order |
| Quotes.FoldAgreesOnFreshOutput | image_utils.go:123-144 | with one block before the matches, the written and the corrected inner loops agree |
| Quotes.FirstLineAgrees | image_utils.go:112-150 | on the first line, the written and corrected expansions agree |
| Quotes.TwoLines | image_utils.go:112-150 | two lines expand one after the other |
| Quotes.FailedReferenceLine | image_utils.go:122-149 | as written, a line that is one failed reference yields an empty head and glues the reference onto block 0 |
| Quotes.FailedReferenceLineFixed | image_utils.go:122-149 | corrected, such a line yields one block holding the reference |
| Quotes.FailedQuoteLandsOnEarlierLine | image_utils.go:135 | counterexample: the second line's failed reference lands in the first line's block |
| Imaging.Min | image_utils.go:232 | the integer minimum of width and height |
| Imaging.CenteredOffset | image_utils.go:236 | the window fits and is centred: its margins differ by at most one |
| Imaging.SquareHasNoMargin | image_utils.go:231-236 | a square picture has size W and offset 0, so it is copied unchanged |
| Imaging.WindowSpansShorterSide | image_utils.go:231-236 | the window covers the whole shorter side |
| Imaging.CropToSquare | image_utils.go:230-240 | a fresh size×size picture with size = min(W,H) whose (x,y) is source (x+(W-size)/2, y+(H-size)/2), always in bounds; a square input is copied unchanged |
| EventData.MimeTopLevelType | data.go:107-108 | IsImage/IsVideo hold exactly for "image"/"image/…" and "video"/"video/…", never both |
| EventData.DisplayImage | data.go:109-117 | the image tag if set; otherwise the URL for an image file; otherwise "" |
| EventData.FileMetadataMedia | data.go:272-278 | kind 1063: the URL is the image for an image, or the video for a video; the video type is the whole second "/"-separated part of the MIME type, which is followed by the end of the type or another "/"; a video MIME type without "/" is the error path |
| EventData.NpubShort | data.go:45-48 | first 8 characters, the ellipsis, the last 4 (the same expression as data.go:302) |
| EventData.NpubShortBytes | data.go:302 | for an npub of at least 12 characters, the short form is 15 bytes |
| EventData.ProcessedLines | data.go:28-35 | the preview has no more lines than the content |
| EventData.NonBlank | data.go:30-32 | filtering keeps at most all lines |
| EventData.NonBlankMembers | data.go:30-32 | the kept lines are exactly the non-blank ones |
| EventData.NonBlankAppend | data.go:29-35 | one more line is kept iff it is not blank |
| EventData.Shortened | data.go:33 | each kept line goes through shortenNostrURLs, in order |
| EventData.ShortenedAppend | data.go:33-34 | shortening distributes over appending a line |
| EventData.ProcessedLinesAreShortenedNonBlank | data.go:27-37 | the preview's lines are the non-blank lines, shortened, in order |
| EventData.Preview | data.go:26-38 | Preview is those lines joined with "<br/>" |
| EventData.ProcessedLinesStep | data.go:29-34 | one iteration of the preview loop drops a blank line and keeps any other line shortened |
| EventData.PreviewOfOneLine | data.go:26-38 | a blank one-line content previews as "", a non-blank one as the line shortened |
| EventData.RelaysForNip19 | data.go:127-133 | the first min(3, n) relays, in order |
| EventData.KeptRelays | data.go:150-161 | at most as many kept relays as relays |
| EventData.EventRelays | data.go:150-161 | the relay loop gives trimProtocol of each relay without "/npub1", in order, whatever the excluded list (also data.go:174-184) |
| EventData.KeptRelaysMembers | data.go:157-160 | every kept relay comes from a relay without "/npub1", and every such relay is kept |
| EventData.KeptRelaysExcluding | data.go:152-156 | corrected filter: at most as many kept relays as relays |
| EventData.ExcludingDropsExcluded | data.go:152-156 | corrected: no kept relay contains an excluded one; without excluded matches, the result is as written |
| EventData.ExcludedRelayIsKept | data.go:152-156 | counterexample: a relay containing an excluded one is kept as written and dropped once corrected |
| EventData.VideoTypeOf | data.go:290-296 | "mp4" iff the URL ends in mp4; "mov" iff it ends in mov and not mp4; otherwise "webm" |
| EventData.ImageIsFirstMatch | data.go:283-286 | the image is the first URL the image matcher accepts, none iff no URL is accepted |
| EventData.VideoIsFirstMatch | data.go:287-289 | the video is the first URL the video matcher accepts and the image matcher rejects, none iff there is none |
| EventData.ContentMedia | data.go:280-299 | the loop's image, video and videoType are the first matches and the video's type |
| EventData.KindDescription | data.go:266-269 | never empty: a kind with a non-empty name in the table gets that name; otherwise "Kind " followed by its decimal number, with a leading "-" when negative |
| EventData.KindFallbackNamesKind | data.go:268 | the fallback's number reads back as the kind |
| Text.TrimLeft | image_utils.go:147 | drops a blank prefix and leaves a suffix that starts with a non-space |
| Text.TrimRight | image_utils.go:147 | drops a blank suffix and leaves a prefix that ends with a non-space |
| Text.TrimSpaceEmptyIffBlank | image_utils.go:147 | `TrimSpace(s) == ""` iff s is all white space |
| Text.IndexOf | data.go:107 | the first position of the separator |
| Text.Split | data.go:27 | at least one piece, none containing the separator |
| Text.JoinSplit | data.go:27-37 | joining the pieces with the separator gives the text back |
| Text.FirstPiece | data.go:107-108 | the first piece is w iff the text is w or starts with w and the separator |
| Text.FirstPieceIsPrefix | data.go:107-108 | the first piece is a prefix |
| Text.SecondPiece | data.go:277 | a second piece exists iff the separator occurs; it is the text after the first separator, up to the end of the text or the next separator |
| Text.DigitChar | data.go:268 | a decimal digit character |
| Text.FormatNat | data.go:268 | a non-empty string of digits |
| Text.ParseFormatNat | data.go:268 | the digits read back as the number |
| Text.FormatIntRoundTrip | data.go:268 | `%d` formatting reads back as the number |
| Text.Utf8LengthConcat | data.go:302 | the byte length of a concatenation is the sum |
| Text.AsciiUtf8Length | data.go:302 | for ASCII text, bytes equal characters |

## Left out

- `roundImage`: floating-point anti-aliased drawing and compositing in foreign libraries.
- `fetchImageFromURL`, font loading and the `fontMap` contents: I/O. Fonts are an opaque type parameter `F`.
- The language detector: its answer is the parameter `detected`. The ISO 639-1 code conversion is not part of this model.
- The context deadlines (image_utils.go:107, data.go:171, data.go:258) and all network calls (`getEvent`, `relaysForPubkey`, `authorLastNotes`): each fetch is the oracle `fetch`, mapping an identifier to the content or to nothing.
- NIP-19 encoding, NIP-10 reply detection, time formatting, JSON decoding of profile metadata, `html.EscapeString` and `template.HTML`. These are library behaviour: `Preview` takes the content already escaped.
- The regular expressions. Their matches are inputs: spans per line for the quote expander, URL lists and accept predicates for the media loop.
- `maxIndex`, `trimProtocol`, `shortenNostrURLs`, `kindNames` and `BLOCK` are parameters. `maxIndex` is assumed to be an argmax.
- `language.ScriptRanges` is the parameter `src`, and the Go script tags are the `Script` datatype.
- Byte offsets of the matcher are modelled as character offsets, and strings as sequences of runes.
- Scripts.BuildScriptRanges: the Go slice is a process-wide variable filled once at startup. It is modelled as the method's result, starting from empty.
- Resolver.ResolveParagraph: requires every character to classify below 11. As written, any other character makes `ranking[idx]++` index out of range and abort, and that abort is not modelled. The corrected `ResolveParagraphByPos` needs no such requirement.
- Resolver.RankScripts: the `[11]int` ranking is a value sequence, not an array. The per-character lookup is the helper method `ClassAt`, so the search stays out of the loop's proof.
- Quotes.ExpandLineInto: the body of the loop over the lines is its own method, and the loop over a line's matches is the method `ExpandMatchesInto`. The statements are the same.
- Quotes.ValidSpans: it requires only that matches lie inside the line and are at least six characters long. The matcher's ordering and "nostr:" prefix are not needed by the expansion and are not stated.
- Quotes.Nip19: the re-match of the match text (`FindStringSubmatch`) is taken to give back the match text itself.
- EventData.ContentMedia: requires the URLs to be non-empty, as the URL matcher guarantees. An empty field then means "not chosen yet".
- EventData.NpubShort: the npub is bech32 text, which is ASCII, so slicing characters is slicing bytes.
- EventData.NpubShort: requires at least 8 characters. data.go:41 and data.go:139 discard the error of `EncodePublicKey`; on that error the npub is "", and the slice at data.go:47 or data.go:302 aborts the request. That abort is not modelled.

## Findings

| source | as written | input that shows it | evidently intended | confidence | as-written member | corrected member |
|---|---|---|---|---|---|---|
| image_utils.go:252 | `lookupScript` returns the table index `h`, though the comment calls it the position in supportedScripts | a one-row Hebrew table classifies U+05D0 as 0 (Unknown), not 3; with twelve rows, index 11 is past the eleven-slot ranking | return `scriptRanges[h].Pos` | not executed | Scripts.LookupAnswersTableIndex | Scripts.LookupScriptPos |
| image_utils.go:65-76 | the table is grouped by supported script, not sorted by start, yet `lookupScript` binary-searches it | source rows Hebrew, Hiragana, Katakana give the table Hiragana, Katakana, Hebrew; U+05D0 lies in entry 2 but the search answers 0 | sort the table by start before searching | not executed | Scripts.UnsortedTableMissesRange | Scripts.SortedTableClassifies |
| image_utils.go:135 | `b` restarts at 0 on each line but indexes the whole output, so a failed reference is appended to a block of an earlier line | lines "nostr:a" and "nostr:b", both fetches failing, give ["nostr:anostr:b", ""] | append to the line's newest block, giving ["nostr:a", "nostr:b"] | not executed | Quotes.FailedQuoteLandsOnEarlierLine | Quotes.ExpandLinesFixedConcat |
| data.go:152-156 | the `continue` on an excluded relay only continues the inner loop, so excluded relays are kept (also data.go:174-179) | relay "wss://bad.example" with excluded "bad" is kept | skip the relay | not executed | EventData.ExcludedRelayIsKept | EventData.ExcludingDropsExcluded |
