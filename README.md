# Dombyra repertoire: a verified model

The repository keeps track of which dombyra players know which pieces. Its
core has four parts:

- **The spreadsheet dry run** (`test-import.js`) walks the rows of a sheet. It
  skips the header row and reads 16 fixed (name column, title column) pairs in
  every other row. It reports and counts every pair whose cells are usable and
  hold no header word.
- **The JSON import** (`import.js`, into the tables of `init-db.js`) walks the
  cleaned repertoire document, one (participant, piece) pair at a time. For
  each pair it upserts the person, upserts the piece and inserts the `knows`
  edge. A statement that fails is caught for that pair alone. A connection
  failure ends the whole run with exit code 1.
- **The web server's read side** (`server.js`) loads the document once, with
  a fallback, and serves two lists:
  - `/api/search`: the names of the participants who know a matching piece,
    up to a cap;
  - `/api/pieces`: every distinct piece title.
- **The maintenance script** (`manage_repertoire.py`) does three things:
  - corrects typos in titles through a fixed table;
  - de-duplicates repertoires and merges participants that share a name;
  - adds pieces to a participant, in place.

The model has one module per source file:

- `TestImport` (test_import.dfy)
- `GraphImport` (graph_import.dfy)
- `Api` (server.dfy)
- `ManageRepertoire` (manage_repertoire.dfy)

Shared modules:

- `Document`: the repertoire document, a JSON object from group name to
  participants, kept as a sequence of groups in insertion order.
- `Text`: JavaScript's `trim`, `toLowerCase` and `includes`.
- `Seqs`: sequence helpers, chiefly order-preserving de-duplication.

Code that changes state step by step is modelled imperatively:

- the loops of the dry run;
- the import, as a `Database` class over the three tables;
- the two handlers, as methods of a `Server` class;
- the clean pass and `add_repertoire`, on a `RepertoireFile` class that holds
  the script's global `data`.

Each method is proved against a specification function. The properties the
source promises are lemmas about those functions. `clean_repertoire` and
`clean_group` only build a local value, so they are pure functions.

The import's database errors come from an oracle: a sequence of faults,
indexed by the pair's position in the enumeration. One pair can meet one of
four faults:

- the connection fails;
- the person statement fails;
- the piece statement fails;
- the edge statement fails.

The model's validity invariant on the store has four parts:

- ids below the value of the table's sequence;
- distinct ids;
- unique, trimmed, non-empty keys;
- edges that reference stored rows.

`init-db.js` declares only part of this: `SERIAL PRIMARY KEY` ids, `NOT NULL
UNIQUE` keys, and foreign keys on `knows`. The tables themselves would accept
an empty key, a key with surrounding spaces, or an id inserted explicitly above
the sequence. The invariant holds because `init-db.js` creates the tables empty
and `import.js` is their only writer. The import is proved to keep it. Its
effect on the store and the count is stated for any starting database.

### Where the code and the design notes differ

The repository's design notes, a prose account of the system, are not part of this model. The model follows the code in each case.

- **Pieces order.** The design notes call the pieces listing sorted. The code
  keeps the order in which titles are first met (`Api.PiecesNotSorted`).
- **Header markers.** The design notes drop a pair when either cell holds a
  header marker. The code looks for `есім` in the name cell only, and for
  `білетін` in the title cell only (`TestImport.MarkersCheckedPerColumn`,
  `TestImport.MarkerCaseIgnored`).
- **Import input.** The design notes have the import read spreadsheet rows.
  `import.js` reads the cleaned JSON document.
- **Import summary.** The design notes give the import a summary of
  processed, imported and failed pairs. The code keeps only `importedCount`.
- **Connection failures.** A connection failure does not skip the pair. It
  ends the run, because `pool.connect()` sits outside the `try` block.
- **Search results.** The design notes have search return distinct names. The
  code adds one entry per matching participant, so the same name can appear
  twice when two groups list it (`Api.AtMostOneHitPerParticipant`,
  `Api.NameListedTwice`).
- **Negative count.** A negative `count` makes the search look at the first
  group only (`Api.NegativeCapScansFirstGroupOnly`).

## Model

| member | source | states |
|---|---|---|
| Text.TrimIsSlice | test-import.js:49-50 | `trim()` keeps one contiguous piece of the string. Everything before and after it is white space, and the piece neither starts nor ends with white space. |
| Text.TrimEmptyIffAllSpace | test-import.js:49-50 | `trim() === ''` holds exactly when every character is white space. |
| Text.TrimIdempotent | import.js:40 | Trimming a trimmed name or title changes nothing. |
| Text.ContainsIffOccurs | server.js:44 | `includes(sub)` holds exactly when `sub` occurs at some index. |
| Text.ContainsEmpty | server.js:34 | The empty query is contained in every title. |
| Text.NotContainedWithoutFirstChar | test-import.js:51-52 | A marker whose first character is absent from the text is not contained in it. |
| TestImport.DigitsAreDecimal | test-import.js:49-51 | The decimal form of a non-negative integer, which `toString()` gives for a number cell after an optional `-`, is a non-empty run of the digits 0 to 9. |
| TestImport.ScanRow | test-import.js:33-58 | The inner loop over the 16 column pairs returns exactly the row's usable (trimmed name, trimmed title) pairs, in pair order. The count equals their number. |
| TestImport.TestImport | test-import.js:13-59 | The lines reported are exactly the pairs of every row but the header row, in row and pair order. `recordCount` is their number. |
| TestImport.PairListShape | test-import.js:27-31 | There are 16 column pairs. Each title column follows its name column, and the name columns increase. |
| TestImport.RaggedPairSkipped | test-import.js:35-37 | A column pair beyond the end of a short row is skipped for that row alone. |
| TestImport.HeaderRowIgnored | test-import.js:22 | Row 0 is never read. Replacing it changes nothing. |
| TestImport.RowsPairsAppend | test-import.js:22-58 | Rows are reported in order. The pairs of `a + b` are those of `a`, then those of `b`. |
| TestImport.RowPairsMembership | test-import.js:33-57 | A pair is found in a row exactly when some column pair of it has usable cells with those trimmed texts. |
| TestImport.ExtractPairsMembership | test-import.js:22-57 | A pair is reported exactly when some column pair of some row other than row 0 has usable cells with those trimmed texts. |
| TestImport.NumberCellIsPlainText | test-import.js:48-52 | A non-zero number cell is always usable. It is truthy, trims to itself and never matches a header marker. |
| TestImport.MarkersCheckedPerColumn | test-import.js:48-52 | For all cells: `есім` in the lower-cased name text rejects the pair, and so does `білетін` in the lower-cased title text. Once a column is usable and free of its own marker, its other content makes no difference, including the other column's marker. Name cells whose texts lower-case alike are judged alike. |
| TestImport.MarkerCaseIgnored | test-import.js:51-52 | Upper-case `ЕСІМ` in the name cell and `БІЛЕТІН` in the title cell reject any pair. `Есім` in the title cell does not. |
| Api.Server.constructor | server.js:12-20 | The served data is the loaded document, or the two empty fallback groups when loading throws. |
| Api.ScanGroup | server.js:42-50 | The inner loop over one group's participants appends every matching name in order. It stops right after the entry that brings the results to `max(count, 1)`, and then the results hold exactly that many names. |
| Api.Server.Search | server.js:33-56 | The two nested loops with their two `break`s return the first `count` matches. With a negative count they return at most the first match of the first group. |
| Api.AddTitles | server.js:72 | Adding one participant's titles to the insertion-ordered set leaves the titles seen so far, then these, with repeats removed in first-seen order. |
| Api.AddGroupTitles | server.js:71-73 | Adding every title of one group does the same for that group's titles, participant by participant. |
| Api.Server.Pieces | server.js:69-76 | The listing is every title of every participant with repeats removed, in first-seen order. |
| Api.SearchCap | server.js:47-55 | With a count of at least 1, exactly `min(count, matches)` names are returned. With a negative count, at most one. |
| Api.SearchIsPrefixOfMatches | server.js:41-56 | Whatever the count, the results are a prefix of the full match list, in group then participant order. |
| Api.MatchesMembership | server.js:41-45 | A name is matched exactly when some participant with that name has a piece whose lower-cased title contains the query. |
| Api.SearchResultsKnow | server.js:44-45 | Every returned name belongs to a participant who knows a matching piece. |
| Api.AtMostOneHitPerParticipant | server.js:41-50 | Each participant adds at most one entry. A name occurs in the match list exactly as many times as there are participants with that name who know a matching piece, so the list is no longer than the participant list. |
| Api.NameListedTwice | server.js:41-45 | A participant listed in two groups is matched twice, so the same name appears twice in the match list. |
| Api.EmptyQueryMatchesNonEmptyRepertoires | server.js:34 | A missing query matches exactly the participants with at least one piece. |
| Api.DefaultCap | server.js:35 | A missing or zero count means 1000. On a document with at most 1000 participants that returns every match. |
| Api.NegativeCapScansFirstGroupOnly | server.js:47-55 | With count -1, a match in the second group is not returned, although it is in the match list. |
| Api.FallbackServesNothing | server.js:16-20 | On the fallback data, search and the pieces listing are empty. |
| Api.PiecesListing | server.js:69-76 | The listing has no repeats. It holds exactly the titles of the participants, in the order the scan first meets them. |
| Api.PiecesNotSorted | server.js:69-76 | For any two distinct titles, a repertoire `[b, a, b]` is listed as `[b, a]`, the order in which they are met, whichever sorts first. |
| GraphImport.UpsertStores | import.js:38-49 | After an upsert the key is stored and the returned id is its id. An existing key keeps its id, and no other row changes. |
| GraphImport.UpsertKeepsValid | init-db.js:15-27 | An upsert keeps ids distinct and keys unique. A new key gets a fresh id from the sequence. |
| GraphImport.SkippedPairChangesNothing | import.js:29-33 | A pair with an empty or blank name or title is skipped, and the store is unchanged. |
| GraphImport.ImportedIffNoFault | import.js:35-58 | A pair is counted exactly when it is not skipped and no statement fails. The run aborts on it exactly when the connection fails. |
| GraphImport.ImportedPairIsLinked | import.js:38-56 | An imported pair stores the trimmed name and title and adds exactly the edge between their ids. Existing ids are kept. |
| GraphImport.FailureKeepsEarlierStatements | import.js:36-58 | There is no transaction. After a failed piece statement the person row stays. After a failed edge statement both rows stay. |
| GraphImport.ImportOneExtends | import.js:38-53 | Whatever fails, a pair only adds rows and edges, and no id changes. |
| GraphImport.GrowthKeepsValid | init-db.js:29-35 | A store that only grew, with valid tables and new edges that reference stored rows, satisfies the foreign keys. |
| GraphImport.ImportOneKeepsValid | init-db.js:15-35 | Whatever fails, a pair keeps every table constraint. |
| GraphImport.ImportOneOnLinked | import.js:38-53 | A pair whose name and title are already linked changes no row and no edge, because of `ON CONFLICT DO NOTHING`. |
| GraphImport.RunStep | import.js:28-61 | One more pair of a live run gives the store and outcome of importing that pair, with the count raised on success and the run aborted on a connection failure. |
| GraphImport.RunAfterAbort | import.js:68-70 | Once a connection fails, the later pairs are never processed. |
| GraphImport.RunKeepsValid | init-db.js:15-35 | The whole run keeps every table constraint. |
| GraphImport.RunExtends | import.js:16-64 | The whole run only adds rows and edges. |
| GraphImport.ImportedCountsSuccesses | import.js:13-56 | When the run is not aborted, `importedCount` is the number of pairs that are not skipped and meet no fault. |
| GraphImport.StepAborts | import.js:35 | A pair aborts the run exactly when it is not skipped and the connection fails. |
| GraphImport.AbortedIffConnectFault | import.js:28-70 | The run exits with 1 exactly when some pair that is not skipped meets a connection failure. |
| GraphImport.CoversExtends | import.js:38-53 | Links survive any later growth of the store. |
| GraphImport.FaultFreeRunCovers | import.js:16-64 | A run without faults stores and links every pair that is not skipped. |
| GraphImport.RunOnCoveredChangesNothing | import.js:38-53 | Importing pairs that are already linked changes no row and no edge, whatever the faults. |
| GraphImport.RerunChangesNothing | import.js:16-64 | Re-running the import on the same document after a fault-free run leaves people, pieces and edges as they were. |
| GraphImport.Database.constructor | init-db.js:15-35 | The freshly created tables are empty and valid. |
| GraphImport.Database.UpsertPerson | import.js:38-42 | Insert-or-fetch on `people`. The other tables are untouched. |
| GraphImport.Database.UpsertPiece | import.js:45-49 | Insert-or-fetch on `pieces`. The other tables are untouched. |
| GraphImport.Database.Link | import.js:52-53 | The edge is present once afterwards. The other tables are untouched. |
| GraphImport.Database.ImportPair | import.js:29-61 | The body of the innermost loop. It applies the validity check, the connection and the `try` block, and leaves the store and outcome that `ImportOne` gives. |
| GraphImport.Database.ImportNext | import.js:28-61 | One pass of the piece loop leaves the store, count and abort flag of the run extended by that pair. |
| GraphImport.Database.ImportRepertoire | import.js:28-62 | The loop over one participant's pieces leaves the store, count and abort flag that the run over those pairs gives. |
| GraphImport.Database.ImportJson | import.js:5-71 | An unreadable file exits with 1 and changes nothing. Otherwise the store and `importedCount` are the run's over every pair of the document. The exit code is 1 exactly when the run aborted. A store that satisfied the validity invariant still does. |
| ManageRepertoire.FixValuesAreNotKeys | manage_repertoire.py:8-14 | No corrected title in `fix_map` is itself a key. |
| ManageRepertoire.FixedIsNotKey | manage_repertoire.py:21 | A corrected title is not a key, so correcting it again changes nothing. |
| ManageRepertoire.CleanIsDedupOfCorrected | manage_repertoire.py:17-25 | The loop equals correcting every title, then keeping each corrected title at its first occurrence. |
| ManageRepertoire.CleanMembership | manage_repertoire.py:17-25 | The cleaned repertoire holds exactly the corrected input titles `fix_map.get(p, p)`. |
| ManageRepertoire.CleanHasNoDuplicates | manage_repertoire.py:23-24 | The cleaned repertoire has no repeats and is no longer than the input. |
| ManageRepertoire.CleanKeepsFirstOccurrenceOrder | manage_repertoire.py:18-25 | Titles come in the order of their first corrected occurrence. |
| ManageRepertoire.CleanHasNoMisspelling | manage_repertoire.py:21 | No title of a cleaned repertoire is a `fix_map` key. |
| ManageRepertoire.CleanIdempotent | manage_repertoire.py:17-25 | Cleaning a cleaned repertoire changes nothing. |
| ManageRepertoire.CleanAfterClean | manage_repertoire.py:32-35 | Merging into an already cleaned list gives the cleaning of the plain concatenation. |
| ManageRepertoire.CleanBeforeClean | manage_repertoire.py:52-56 | Cleaning the new pieces before appending them makes no difference to the result. |
| ManageRepertoire.MergeNames | manage_repertoire.py:31-37 | A name already in the dictionary keeps its place. A new name is added at the end. |
| ManageRepertoire.MergeKeepsMerged | manage_repertoire.py:31-37 | After one more participant, every entry still holds the cleaning of everything listed under its name so far. |
| ManageRepertoire.CleanGroupNames | manage_repertoire.py:28-39 | The cleaned group lists each participant name exactly once, in order of first appearance. |
| ManageRepertoire.CleanGroupRepertoires | manage_repertoire.py:32-37 | Each name gets the cleaning of all its repertoires, concatenated in input order. |
| ManageRepertoire.MergeNew | manage_repertoire.py:36-37 | A participant with a new name and an already clean repertoire is added at the end unchanged. |
| ManageRepertoire.CleanGroupOfClean | manage_repertoire.py:28-39 | A group with distinct names and clean repertoires comes out of `clean_group` unchanged. |
| ManageRepertoire.CleanGroupIdempotent | manage_repertoire.py:28-39 | Cleaning a cleaned group changes nothing. |
| ManageRepertoire.CleanDocKeepsGroupNames | manage_repertoire.py:42-43 | The clean pass keeps every group name in its place. |
| ManageRepertoire.CleanDocIdempotent | manage_repertoire.py:42-43 | Running the clean pass twice is running it once. |
| ManageRepertoire.FindParticipant | manage_repertoire.py:51 | `next(...)` finds the first participant with the name, or reports that there is none. |
| ManageRepertoire.RepertoireFile.constructor | manage_repertoire.py:4-5 | `data` is the loaded document. |
| ManageRepertoire.RepertoireFile.CleanAll | manage_repertoire.py:42-43 | Every group is replaced by its `clean_group`, in place and in order. |
| ManageRepertoire.RepertoireFile.AddRepertoire | manage_repertoire.py:46-59 | A missing group is created at the end. The first participant with the name gets `clean(old + clean(new))`. An unknown participant is appended with `clean(new)`. No other group or participant changes, and group names stay unique. |
| ManageRepertoire.RepeatedAddChangesNothing | manage_repertoire.py:52-56 | Adding the same pieces to the same participant a second time leaves the repertoire as it was. |

## Left out

- Reading the spreadsheet (`xlsx.readFile`, `sheet_to_json`) is left out. The rows come in as a parameter. Cells are blank, strings or integers. Dates, booleans and fractional numbers are not modelled.
- TestImport.CellText: a number cell is an unbounded integer printed in full. JavaScript numbers are doubles: `toString()` prints magnitudes of 10^21 and above in exponent form (`1e+21`), and integers above 2^53 are not held exactly. The model's text differs from the source's for such cells.
- Console output is left out throughout. This covers the debug print of the first rows and of row 2 in `test-import.js`, and the log lines of the import and the server.
- Reading and parsing JSON files is left out. Their result comes in as an `Option`, and `None` stands for a file that cannot be read or parsed. Writing the document back (`json.dump`) is left out.
- A document whose values have the wrong shape is not modelled, because the document is typed. Examples are a participant without `Репертуар` and a non-string name.
- Express is left out: routing, JSON responses, static files, and the 500 handlers. The model's handlers cannot throw. The `/api/repertoire` endpoint only returns the loaded data and is not modelled.
- The database is an in-memory model of its three tables. Connections, `client.release()`, concurrency and a failure of the follow-up `SELECT` are left out. Database errors come from a fault oracle.
- `ON DELETE CASCADE` is not modelled, because nothing in the core deletes rows. Nor is the integer range of `SERIAL`.
- `parseInt` on the `count` string is not modelled. The count comes in as an optional integer, and `None` stands for `NaN`.
- JavaScript's key order for group names that are array indices is not modelled. `for ... in` in `server.js` and `import.js` enumerates such keys (`"1"`, `"2"`, ...) first, in ascending order, and the other keys after them in insertion order. The model covers documents in which no group name is an array index. For those, every loop takes the groups in insertion order, as Python does.
- Text.LowerChar: lower-cases only ASCII, Latin-1, the basic Cyrillic block and the extra Kazakh letters. Other characters keep their case, unlike full `toLowerCase`.
- `init-db.js` is modelled only through the constraints of its tables, `Database.constructor`, and the validity lemmas. Its connection handling is left out.
- `analyze-excel.js`, `debug-excel.js`, `test_api.js` and `test_json_import.js` are not part of this model.
