# SOFIA status directory, modelled in Dafny

SOFIA keeps a list of systems and their test status in a spreadsheet. Column A
holds the system name, column B the status, and row 1 is a header. Two PHP
files work on that sheet:

- `uppdatera_status.php` is the JSON endpoint. It normalises system names
  (`normalizeSystemName`) and handles four requests: clear all statuses, add a
  system, remove a system, or update one system's status. It saves the sheet
  only when the request changed it, and it answers with counts from
  `getSystemStats`.
- `index.php` is the page. It scans the sheet itself, counts the rows it
  lists, builds an HTML-safe id for every row, and shows "Okänd" for a missing
  status.

The model treats the sheet as an immutable `seq<Row>`, where `store[0]` is
spreadsheet row 1. Every request is a pure function that returns the new sheet
together with an `Outcome`. PHP strings are byte strings; a Dafny `string`
stands for one here, with one character per byte.

Modules, one per file:

- `Optional` (optional.dfy) — `Option`, standing for PHP's `null` versus a
  present value.
- `PhpStr` (phpstr.dfy) — the PHP built-ins the code relies on: `empty()`,
  `trim()`, `urldecode()`, and `preg_replace('/\s+/', ' ', ...)`.
- `Normalizer` (normalizer.dfy) — `normalizeSystemName`.
- `Sheet` (sheet.dfy) — rows, the set of systems the stats count, and
  `getSystemStats`.
- `StatusDirectory` (directory.dfy) — the four request operations, dispatch,
  the save/success logic, and their properties.
- `Display` (display.dfy) — the page's own scan, the safe-id sanitiser and the
  status display default.

The counting and lookup proofs take the normaliser as a parameter
`norm: string -> string`. The sheet instantiates it with `NormalizeSystemName`.

## Behaviour worth knowing

The model follows the code in each of these cases.

- **The header counts as a system.** `getSystemStats` loops from row 1. Its own
  comment (uppdatera_status.php:41-42) expects the header to be skipped only
  if its key repeats. So a non-empty header is counted like any other system.
  Take a header above ("Sys A", "Testad OK") and ("Sys B", ""). The stats
  report 3 systems, with 1 tested (`StatusDirectory.HeaderCountedScenario`).
- **Clearing always saves.** `clear_status` sets the update flag even when
  there is no row 2 to clear. A clear therefore always saves, and it reports
  success if the save works.
- **The header's status survives a clear.** Clearing starts at row 2, as the
  comment at uppdatera_status.php:72 says. So "clear, then stats" gives a
  tested count of 0 only when the header's own status is not "Testad OK"
  (`StatusDirectory.ClearKeepsSystems`).
- **Row 1 is protected only against removal.** The header check at
  uppdatera_status.php:118 is in the removal branch only. An update whose name
  matches row 1 overwrites the header's status.
- **`success` tracks the save.** `success` starts out `false`, so the `isset`
  fallback at the end never fires. A request succeeds exactly when it changed
  the sheet and the save went through. Every rejection, including "already
  exists", reports `success = false`.
- **A failed save still changes the stats.** When the save fails, the
  response's stats describe the changed sheet in memory, not the file on disk.
- **Normalising twice can differ from normalising once.** A name that is
  still percent-encoded after one decode ("%2541") gets a stored form whose
  own key differs ("%41" has the key "A"). The duplicate check then misses it,
  and adding it again adds a second row
  (`StatusDirectory.DoubleEncodedNameAddedTwice`).

## Model

| member | source | states |
|---|---|---|
| PhpStr.Trim | uppdatera_status.php:18 | the result is the one slice of the input that has only cut-set characters before and after it and neither starts nor ends with one; it adds no character; an already trimmed string comes back unchanged |
| PhpStr.TrimCoreUnique | uppdatera_status.php:18 | two slices that each have only cut-set characters outside them and none at their ends are the same string, so trim's result is determined |
| PhpStr.TrimSpan | uppdatera_status.php:18 | scanning forward past cut-set characters, then back from the end but not past that point, finds the core: only cut-set characters outside it and none at its ends |
| PhpStr.TrimAround | uppdatera_status.php:18 | cut-set characters padded around a trimmed string are all removed again |
| PhpStr.TrimPadding | uppdatera_status.php:18 | cut-set characters added at either end of any string make no difference to its trim |
| PhpStr.UrlDecode | uppdatera_status.php:16 | decoding never lengthens a string; a string with no `+` and no `%` followed by two hex digits decodes to itself, so a stray `%` is copied |
| PhpStr.UrlDecodePercentEncode | uppdatera_status.php:12-16 | a name saved percent-encoded byte by byte, with upper-case hex escapes as PHP writes them, decodes back to the name |
| PhpStr.FormEncode | uppdatera_status.php:12-16 | the form encoding never shortens a name, at most triples it, and writes no space |
| PhpStr.FormEncodeSlash | uppdatera_status.php:12-16 | escapes use upper-case hex digits, as PHP's encoders write them: "/" is stored as "%2F" |
| PhpStr.UrlDecodeFormEncode | uppdatera_status.php:12-16 | a name saved form-encoded, with `+` for each space, decodes back to the name |
| PhpStr.CollapseRun | uppdatera_status.php:20 | the result is no longer than the input, has no `\s` other than a space and no two `\s` in a row; after a run no space is written again |
| PhpStr.CollapseRunContent | uppdatera_status.php:20 | collapsing keeps every non-`\s` character in order and adds only spaces |
| PhpStr.CollapseRunEnds | uppdatera_status.php:20 | a non-`\s` first or last character stays first or last |
| PhpStr.CollapseSpaces | uppdatera_status.php:20 | the `\s+` replacement yields a collapsed string no longer than its input (where each run goes is stated by `PhpStr.CollapseSpacesRun`) |
| PhpStr.CollapseSpacesFixedPoint | uppdatera_status.php:20 | the replacement leaves a string unchanged exactly when it is already collapsed |
| PhpStr.CollapseRunIdentity | uppdatera_status.php:20 | a collapsed string passes through the replacement unchanged |
| PhpStr.CollapseRunAppend | uppdatera_status.php:20 | collapsing a concatenation is collapsing the first part, then the second part in the run state the first part ends in |
| PhpStr.CollapseRunOfSpaces | uppdatera_status.php:20 | a non-empty run of `\s` characters becomes exactly one space |
| PhpStr.CollapseSpacesRun | uppdatera_status.php:20 | each maximal `\s` run becomes one space in its place: the text before it collapsed, one space, the text after it collapsed |
| Normalizer.NormalizeSystemName | uppdatera_status.php:14-25 | the key is never longer than the raw name and its whitespace is collapsed (its value on inner and outer whitespace is stated by `Normalizer.NormalizeInnerRun` and `Normalizer.NormalizePadded`) |
| Normalizer.NormalizedShape | uppdatera_status.php:16-20 | no tab, newline, carriage return, vertical tab or form feed survives, and no two spaces touch |
| Normalizer.NormalizeInnerRun | uppdatera_status.php:14-25 | a name with nothing to decode or trim and one inner `\s` run has as key its two sides collapsed and joined by one space |
| Normalizer.SameKeyUpToInnerWhitespace | uppdatera_status.php:14-25 | names that differ only in the whitespace between two parts, such as "Sys  A", "Sys\tA" and "Sys A", have the same key |
| Normalizer.NormalizePadded | uppdatera_status.php:14-25 | whitespace around a name with nothing to decode is trimmed away before collapsing |
| Normalizer.PaddedPair | uppdatera_status.php:14-25 | two characters padded by two spaces and three spaces apart normalise to the two characters one space apart |
| Normalizer.PaddedNameExample | uppdatera_status.php:14-25 | "  a   b  " has the key "a b" |
| Normalizer.PcreSpaceIsTrimmedOrFormFeed | uppdatera_status.php:18-20 | every `\s` character is in trim's default set except the form feed |
| Normalizer.NormalizeIdempotent | uppdatera_status.php:14-25 | on names without `%`, `+` or form feed, normalising twice equals normalising once, and the key is such a name again |
| Normalizer.TrimKeepsPlain | uppdatera_status.php:16-18 | such a name decodes to itself and trims to a trimmed name of the same kind |
| Normalizer.CollapseKeepsPlain | uppdatera_status.php:18-20 | collapsing a trimmed plain name keeps it plain and trimmed |
| Normalizer.NormalFormIsFixed | uppdatera_status.php:14-25 | a plain, trimmed, collapsed name is its own key |
| Normalizer.NormalizeDecodesStoredEncoding | uppdatera_status.php:12-16 | a name stored percent-encoded, with upper-case hex escapes, has the same key as the plain name |
| Normalizer.NotIdempotentOnDoubleEncoding | uppdatera_status.php:14-25 | "%25" plus two hex digits normalises to "%" plus those digits, which normalise to the byte they spell, so normalising is not idempotent |
| Normalizer.EscapedPercentDecodes | uppdatera_status.php:16 | "%25" plus two hex digits normalises to "%" plus those digits |
| Normalizer.EscapeDecodes | uppdatera_status.php:16 | "%" plus two hex digits normalises to the byte they spell |
| Normalizer.NormalizeWithoutSpaces | uppdatera_status.php:14-25 | a name that decodes to a string with no whitespace and no NUL has that string as its key |
| Normalizer.DoubleEncodedA | uppdatera_status.php:14-25 | "%2541" normalises to "%41", and "%41" normalises to "A" |
| Normalizer.KeptByTrimAndCollapse | uppdatera_status.php:18-20 | a string with no whitespace and no NUL survives trim and collapse unchanged |
| Normalizer.NotIdempotentOnFormFeed | uppdatera_status.php:18-20 | a leading form feed survives the trim and becomes a space that the next normalisation trims: "\fa" gives " a", then "a" |
| Normalizer.FormFeedBecomesSpace | uppdatera_status.php:18-20 | "\f" and one ordinary character normalise to a space and that character |
| Normalizer.LeadingSpaceTrimmed | uppdatera_status.php:18 | a space and one ordinary character normalise to that character |
| Sheet.TestedOkPasses | uppdatera_status.php:45-47 | the status "Testad OK" counts as tested and the empty status does not |
| Sheet.TestedOkPadded | uppdatera_status.php:45-47 | "Testad OK" with trim's whitespace on either side, such as " Testad OK\n", still counts as tested |
| Sheet.Percentage | uppdatera_status.php:52 | 0 when there are no systems; between 0 and 100 when the tested count is at most the total; 100 exactly when all are tested and 0 exactly when none are |
| Sheet.RatioBounds | uppdatera_status.php:52 | the ratio of the two counts lies in 0..1 and is 1 or 0 exactly at the extremes |
| Sheet.KeysBySnoc | uppdatera_status.php:36-44 | reading one more row adds its key to the set of systems exactly when the row counts |
| Sheet.TestedKeysAreKeys | uppdatera_status.php:43-48 | every system counted as tested is a system |
| Sheet.TestedKeysBySnoc | uppdatera_status.php:43-48 | one more row adds its key to the tested systems exactly when the key is new and its trimmed status passes |
| Sheet.FirstOfKeySnoc | uppdatera_status.php:43 | appending a row does not change which earlier row first carries a key |
| Sheet.CountStep | uppdatera_status.php:34-51 | one loop iteration adds one to the total exactly for a new countable name, and one to the tested count when that row's status passes |
| Sheet.KeysCountStep | uppdatera_status.php:43-46 | the set of systems grows by the row's key, and its size by one, exactly for a new countable name |
| Sheet.TestedCountStep | uppdatera_status.php:45-48 | the tested count grows by one exactly for a new countable name whose status passes |
| Sheet.CountSystems | uppdatera_status.php:28-51 | the loop's total is the number of distinct non-empty keys, header included, and its tested count is the number of keys whose first row's trimmed status passes |
| Sheet.GetSystemStats | uppdatera_status.php:28-58 | totalSystems is the number of distinct keys; testedOkCount the number whose first row is "Testad OK" after trimming; testedOkCount ≤ totalSystems; the percentage is their ratio |
| StatusDirectory.RemoveRowAt | uppdatera_status.php:121 | removing row i keeps the rows above it and moves every row below it up by one |
| StatusDirectory.SetStatusAt | uppdatera_status.php:146 | writing a status changes only that row's status |
| StatusDirectory.FindFirst | uppdatera_status.php:86-91 | the lookup returns a matching row with no match above it, and returns nothing exactly when no row matches |
| StatusDirectory.ClearStatus | uppdatera_status.php:71-78 | the row count and every name stay; row 1 is untouched; every status from row 2 on is "" |
| StatusDirectory.BlankStatuses | uppdatera_status.php:74-76 | every row keeps its name and gets the status "" |
| StatusDirectory.Outcome.Mutated | uppdatera_status.php:71-148 | the update flag is set by a clear, an add, a removal or an update, and by none of the refusals |
| StatusDirectory.Outcome.Message | uppdatera_status.php:77-150 | each outcome carries the message the code sets for it; the message is empty exactly when an unknown action did nothing |
| StatusDirectory.AddSystem | uppdatera_status.php:79-101 | an `empty()` name is rejected; a name some row (header included) normalises to is rejected; otherwise exactly one row (name, "") is appended; a rejection leaves the sheet as it was |
| StatusDirectory.RemoveSystem | uppdatera_status.php:103-128 | an `empty()` name is rejected; no match gives "not found"; a first match at row 1 is refused; otherwise exactly the first match is removed; a refusal leaves the sheet as it was |
| StatusDirectory.UpdateStatus | uppdatera_status.php:130-152 | a missing name or status is rejected; no match gives "not found"; otherwise only the first match's status changes, row 1 included |
| StatusDirectory.Dispatch | uppdatera_status.php:61-153 | name and status are normalised before use; "clear_status", "add_system" and "remove_system" give exactly the clear, add and remove of that sheet, and a missing action gives exactly the update; an unknown action does nothing; only the update or a removal can report "System not found."; a request that does not set the update flag leaves the sheet unchanged |
| StatusDirectory.HandleRequest | uppdatera_status.php:155-175 | success exactly when the sheet changed and the save worked; a failed save reports "Error saving file: " and the reason, and the file is taken to be left as it was; the stats describe the changed sheet |
| StatusDirectory.KeysBySameNames | uppdatera_status.php:34-46 | two sheets whose rows carry the same names hold the same systems |
| StatusDirectory.TestedKeysOnlyHeader | uppdatera_status.php:43-48 | when no status below row 1 passes, at most the header's system counts as tested |
| StatusDirectory.ClearKeepsSystems | uppdatera_status.php:71-78 | after a clear the set of systems is unchanged and at most the header counts as tested; none does when the header's status does not pass |
| StatusDirectory.ClearIdempotent | uppdatera_status.php:71-78 | clearing twice equals clearing once |
| StatusDirectory.NormalizeKeepsEmpty | uppdatera_status.php:14-25 | the normaliser maps "" and "0" to themselves |
| StatusDirectory.FoundIsFirstOfKey | uppdatera_status.php:137-143 | the row a lookup finds for a non-empty key is the row the stats read for that key |
| StatusDirectory.NewKeyIsFirst | uppdatera_status.php:43 | a countable row whose key no earlier row carries is where that key is counted |
| StatusDirectory.FindAppended | uppdatera_status.php:86-97 | after appending a row with a new key, the lookup finds the appended row |
| StatusDirectory.FindAppendedOther | uppdatera_status.php:86-91 | appending a row that does not match keeps a failed lookup failing |
| StatusDirectory.AddPlainName | uppdatera_status.php:79-101 | adding a new plain name adds exactly its key to the systems (count +1, tested count unchanged); the lookup finds the new row; adding it again is rejected |
| StatusDirectory.AddedTwiceWhenNotFixed | uppdatera_status.php:87-97 | a key that is not its own normal form is added again on every request |
| StatusDirectory.DoubleEncodedNameAddedTwice | uppdatera_status.php:79-101 | adding "%2541" twice stores two "%41" rows |
| StatusDirectory.RemoveUniqueName | uppdatera_status.php:103-128 | removing the only row of a name drops exactly that system; the lookup then fails |
| StatusDirectory.RemoveFound | uppdatera_status.php:109-122 | removing the first row of a key no other row carries removes exactly that key |
| StatusDirectory.KeysByRemoveUnique | uppdatera_status.php:121 | removing a row whose key no other row carries removes exactly that key from the systems |
| StatusDirectory.UpdateSetsTested | uppdatera_status.php:130-152 | an update keeps the set of systems; the updated system counts as tested exactly when the new status passes; every other system keeps its tested status; so an untested system set to "Testad OK" raises the tested count by one |
| StatusDirectory.UpdateFound | uppdatera_status.php:137-148 | writing the status of the row a lookup finds decides whether its key is tested and leaves every other key's tested status as it was |
| StatusDirectory.OtherKeysKeepTested | uppdatera_status.php:146 | writing one row's status changes the tested status of no other key |
| StatusDirectory.TestedAfterSetStatus | uppdatera_status.php:43-48 | after the first row of a key gets a status, the key is tested exactly when that status passes |
| StatusDirectory.FirstOfKeyUnique | uppdatera_status.php:43 | a key has only one first row |
| StatusDirectory.EarlierKeyIsSeen | uppdatera_status.php:43-44 | once a countable row is read, its key is among those already seen |
| StatusDirectory.HeaderIsCounted | uppdatera_status.php:34-46 | a header with a non-empty key is one of the systems |
| StatusDirectory.ThreeDistinctRows | uppdatera_status.php:34-51 | three countable rows with distinct keys give three systems, each tested exactly when its status passes |
| StatusDirectory.HeaderCountedScenario | uppdatera_status.php:34-51 | a header above one tested system and one without status gives 3 systems, with only the tested one counted as tested |
| StatusDirectory.ThreeRowScenario | uppdatera_status.php:34-51 | the same three-row scenario, for any normaliser and test |
| Display.KeptRows | index.php:12-24 | the listed rows are never more than the sheet's rows |
| Display.KeptRowsMembers | index.php:13-16 | a row is listed exactly when its raw name is not `empty()` |
| Display.KeptRowsAppend | index.php:12-24 | listing keeps sheet order: the list of a concatenation is the concatenation of the lists |
| Display.OkRows | index.php:25-27 | the rows counted as tested are never more than the rows looked at |
| Display.OkRowsMembers | index.php:25 | a row counts as tested exactly when its raw, untrimmed status is "Testad OK" |
| Display.OkRowsAppend | index.php:25-27 | counting tested rows is additive over concatenation |
| Display.ScanStep | index.php:12-28 | one loop iteration lists the row exactly when its name is not empty, and counts it as tested exactly when its status matches |
| Display.ScanRows | index.php:12-28 | data is exactly the rows with non-empty raw names, in order, duplicates included; the total is their number; the tested count is the number whose raw status is "Testad OK"; tested ≤ total |
| Display.PageStats | index.php:12-30 | the page's counts as above, and its percentage is the ratio of its own tested count to its own total: 0 without systems and otherwise within 0..100 |
| Display.PageCountsAtLeastStats | index.php:12-28 | the page never lists fewer rows than the number of distinct keys the stats count |
| Display.SystemKeysAtMostListed | index.php:12-28 | the endpoint's totalSystems never exceeds the page's total |
| Display.ReplaceNonIdChars | index.php:175 | the replacement keeps the length, yields only `[A-Za-z0-9_-]`, keeps those characters and turns every other one into `_` |
| Display.ReplaceFixedPoint | index.php:175 | the replacement changes a string exactly when it has a character outside the id set |
| Display.ReplaceIdempotent | index.php:175 | replacing twice equals replacing once |
| Display.TrimKeepsIdOnly | index.php:177 | trimming a string of id characters leaves id characters |
| Display.SafeSystemId | index.php:173-181 | the id is never empty, uses only `[A-Za-z0-9_-]` and has no `_` at either end; with the core being the name, characters replaced, between its leading and trailing `_`, the id is that core, or "system_" plus the digest exactly when the core is `empty()` |
| Display.IdOfReplaced | index.php:177-181 | the same statement for a name whose characters are already replaced |
| Display.SafeIdOfIdName | index.php:173-181 | a name of id characters with no `_` at either end is its own id |
| Display.SafeIdFallback | index.php:179-181 | a name with no letter, digit or `-` falls back to "system_" plus the digest |
| Display.SafeIdZeroFallback | index.php:177-181 | a "0" between two non-id characters also falls back, because `empty()` rejects "0" |
| Display.UnderscoresAroundZero | index.php:177 | trimming `_` from "_0_" leaves "0" |
| Display.DisplayStatus | index.php:186 | the shown text is never `empty()`; it is the status itself exactly when the status is not `empty()`, and "Okänd" otherwise |

## Left out

- Spreadsheet I/O. Loading and writing the workbook belong to PhpSpreadsheet,
  which is not part of this model. The sheet is an in-memory sequence. The
  outcome of the save is the `SaveResult` parameter of
  `StatusDirectory.HandleRequest`.
- Row-count queries. `getHighestRow` and `getHighestDataRow` are both taken to
  be the length of the sequence. Trailing rows that carry only formatting are
  not modelled. So in the model `add_system` always appends directly after the
  last data row. PhpSpreadsheet reports 1 as the highest row of an empty
  sheet, so an empty sheet is `[Row("", "")]`; the sequence `[]` stands for no
  real sheet, and a system added to it would sit in the header's place.
- Sheet.Percentage: the exact ratio, times 100, without `round(..., 2)`.
  Floating-point rounding is not modelled.
- Display.PageStats: same as above, the page's percentage is not rounded.
- Sheet.GetSystemStats: deduplicates with string equality, but `in_array`
  compares loosely. PHP 8 treats two numeric strings such as "1" and "01" as
  equal, so the code merges them; the model counts them as two systems.
- Cell types. Every cell is a string, and an empty or null cell is "".
  Numeric, boolean and formula cells are not modelled.
- Display.SafeSystemId: md5 is not modelled. The digest is a parameter, and
  the only thing assumed is that it is 32 lower-case hex digits.
- StatusDirectory.HandleRequest: assumes that a failed save leaves the file as
  it was, so `persisted` is the old sheet. The code only sets the flag and the
  message when the writer throws. Whether the writer can leave a partial file
  belongs to PhpSpreadsheet.
- StatusDirectory.HandleRequest: only PhpSpreadsheet's own exception is caught
  around the save. Other failures, such as exceptions while loading or
  editing, are not modelled.
- Presentation and transport: `htmlspecialchars`, the HTML, the jQuery
  handlers, JSON encoding and headers.
- Concurrency. Two requests that edit the sheet at the same time are not
  coordinated by the code, and the model handles one request at a time.
- Case folding. The source leaves it commented out, so names match
  case-sensitively here too.
