# Airtable to RescueGroups feed transformer, in Dafny

This project models the feed transformer of the Airtable-to-RescueGroups
synchroniser. The transformer is the pure part of `create_csv_file` together
with `fix_unknowns` in `lambda_handler.py`. It takes the pet records returned
by the records API. It turns them into the rows of the listing feed's CSV
file, each row as wide as the header row:

- `Schema` resolves the header layout. It looks up the first position of
  each of the 26 columns the transformer fills (the `indexes` table). A
  header row that lacks one of them is an error, as Python's `list.index`
  raises `ValueError`.
- `Pets` defines a record as an id, a map of string fields and a list of
  pictures. It also defines the filter: the status must contain the marker
  `"Published - Available"` and the species must be exactly `"Dog"` or
  `"Cat"`. An absent field reads as `""`.
- `Text` holds the helpers: Python's substring test and `str.replace`. It
  also states the description's line-break flattening against a one-pass
  reference definition.
- `Rows` builds one record's row:
  - a row of empty cells;
  - positional assignments of field values and policy constants;
  - breed and colour chosen by species;
  - the flattened description;
  - up to four photo URLs in list order;
  - `fix_unknowns`, which blanks `"Unknown"` in the seven yes/no flag columns.

  It also builds the placeholder "deleted dog" row.
- `Feed` is `create_csv_file` without the file. It gives the header row, then
  one row per qualifying record in input order. An empty record list gives
  the placeholder row instead.
- `Scenario` runs the records of the repository's CSV test through the model.

Rows are `seq<string>` and the output is `seq<seq<string>>`. Python's `None`
in a cell is the empty string, which is what `csv.writer` writes for it.

Three choices of the model follow directly from the handler's code:

- The availability marker is the full string `"Published - Available"`, as
  the status test at `lambda_handler.py:104` requires. A status such as
  `"Published"` alone does not qualify.
- The placeholder row is written only when the record list is empty, as the
  `len(airtable_pets) > 0` branch at `lambda_handler.py:100` decides. A
  non-empty list in which nothing qualifies gives the header row alone.
- The id is written at the position of `externalID` in the header, through
  `indexes["id"]` at `lambda_handler.py:113`, wherever that column stands.

## Model

| member | source | states |
|---|---|---|
| Text.Contains | lambda_handler.py:104 | Python's `marker in status` holds exactly when the marker occurs at some position of the status |
| Text.ReplaceChar | lambda_handler.py:162-163 | `str.replace` of one character gives "" for "", the replacement for the character itself and any other one-character string unchanged; a string without the character is unchanged, and the character is gone when the replacement lacks it; with `Text.ReplaceCharAppend` this fixes the result on every string |
| Text.ReplaceCharAppend | lambda_handler.py:162-163 | replacing in a concatenation is replacing in each part and concatenating, so `str.replace` works character by character |
| Text.FlattenLineBreaks | lambda_handler.py:161-164 | the flattened description contains no carriage return and no line feed |
| Text.FlattenIsBreakLines | lambda_handler.py:161-164 | replacing all CRs, then all LFs, equals the reference that turns each CR and each LF independently into `<br />` and keeps every other character in order |
| Scenario.FlattenExample | test_airtable_rg.py:82-150 | the test's description `"test dog notes\n\r"` becomes `"test dog notes<br /><br />"` |
| Schema.IndexOf | lambda_handler.py:72-97 | `headers.index(c)` succeeds exactly when `c` is in the header, gives its first position, and otherwise fails naming `c` |
| Schema.IndexAll | lambda_handler.py:71-98 | looking up a list of columns in order succeeds exactly when every one is in the header, giving each one's first position; otherwise it fails on the first column of the list that is missing |
| Schema.ResolveLayout | lambda_handler.py:71-98 | the `indexes` table exists exactly when all 26 filled columns are in the header; each entry is its column's first position, in range and pairwise distinct; a failure names the first missing column in the order the dict literal performs its lookups |
| Schema.ReportsFirstMissing | lambda_handler.py:71-98 | whenever some column is the first one missing in lookup order, the layout's error names exactly that column |
| Schema.BreedReportedFirst | lambda_handler.py:72-76 | a header holding `externalID`, `name`, `status` and `type` but not `priBreed` fails on `priBreed`, the fifth lookup, although `sex` is missing too |
| Schema.FitsIsResolved | lambda_handler.py:71-98 | a header admits exactly one first-position table, the resolved one |
| Pets.QualifiesMeaning | lambda_handler.py:103-109 | a record is listed exactly when it has a status containing the marker and a species field that is exactly "Dog" or "Cat"; a record lacking either field is never listed |
| Rows.Assign | lambda_handler.py:113-123 | successive positional assignments to distinct positions each land, and every other cell is unchanged |
| Rows.AssignPhotos | lambda_handler.py:166-177 | the k-th photo slot takes the k-th URL while URLs remain, other slots and cells are unchanged, and URLs beyond the slots are dropped |
| Rows.BlankUnknowns | lambda_handler.py:212-214 | at the given positions exactly "Unknown" becomes empty, every other cell and value is unchanged, and the length is kept |
| Rows.FixUnknowns | lambda_handler.py:200-216 | `fix_unknowns` rewrites "Unknown" to "" only at the seven flag positions, leaves every other position and every other value unchanged, and keeps the row length |
| Rows.FixUnknownsIdempotent | lambda_handler.py:200-216 | applying `fix_unknowns` twice gives the same row as applying it once |
| Rows.BuildRow | lambda_handler.py:111-179 | a record's row is as wide as the header; each field and policy column holds the record's cell, the photo columns hold its URLs in order or "", and every column the handler does not fill is empty |
| Rows.RowDetermined | lambda_handler.py:111-179 | a row matches the cell-by-cell description of a record exactly when it is the built row |
| Rows.RowIdentity | lambda_handler.py:113-123 | the `externalID` column holds the record id verbatim, `status` holds "Available", `type` the species, `courtesy` "Yes" and `found` "No" |
| Rows.RowCopiedFields | lambda_handler.py:114-121 | name, sex, age, special needs, size and coat length are copied from their fields, and an absent field gives "" |
| Rows.MixColumn | lambda_handler.py:125-128 | `mix` is "No" exactly when `Mixed Breed` is "No", and "Yes" for every other value, including "Unknown" and absent |
| Rows.BreedAndColor | lambda_handler.py:130-143 | breed and colour come from the dog fields for a dog and from the cat fields for a cat, and are "" when the chosen field is absent |
| Rows.FlagColumns | lambda_handler.py:145-159 | the seven flag columns copy their fields with "Unknown" blanked, so none of them holds "Unknown" |
| Rows.DescriptionColumn | lambda_handler.py:161-164 | `dsc` is the description with each CR and LF turned into `<br />`, holds no line break, and is "" when the description is absent |
| Rows.PhotoColumns | lambda_handler.py:166-177 | photo1..photo4, read in order, are the first min(k, 4) picture URLs in list order followed by empty cells |
| Rows.PlaceholderRow | lambda_handler.py:182-195 | the placeholder row is as wide as the header, holds its seven assigned values at their columns, and is empty elsewhere |
| Rows.PlaceholderColumns | lambda_handler.py:186-193 | the placeholder is id "1", "Temporary Deleted Dog", "Deleted", "Dog", "Beagle", "Tan" with an empty description, and its flag and photo columns are empty |
| Feed.QualifyingMembers | lambda_handler.py:101-109 | the listed records are exactly the records of the list that pass the filter |
| Feed.QualifyingAppend | lambda_handler.py:101-109 | filtering a concatenation filters each part and keeps their order |
| Feed.RowsOfAppend | lambda_handler.py:101-181 | the rows of a concatenation are the rows of each part, in order |
| Feed.FeedRows | lambda_handler.py:100-181 | the handler's loop writes, in input order, one row per record that passes the filter and nothing for the others, without sorting or deduplication |
| Feed.FeedRowsAppend | lambda_handler.py:100-181 | the loop's output for a concatenation is the output for each part, in order |
| Feed.QualifyingHasRow | lambda_handler.py:100-181 | every record that passes the filter has its row among the loop's rows |
| Feed.TwoRows | lambda_handler.py:100-181 | a list of which exactly two records pass gives their two rows in list order |
| Feed.RecordRowsWidth | lambda_handler.py:111 | every record row built for a header layout is as wide as the header |
| Feed.CreateCsv | lambda_handler.py:59-197 | the output exists exactly when the layout resolves and otherwise carries the layout's error; it is the header row followed by the placeholder row for an empty list, or by the rows of the qualifying records in input order |
| Feed.RowsAsWideAsHeader | lambda_handler.py:68-195 | the output starts with the header row and every later row has the header's width |
| Feed.EmptyListPlaceholder | lambda_handler.py:182-195 | an empty record list gives exactly the header row and the placeholder row |
| Feed.NothingListedHeaderOnly | lambda_handler.py:100-109 | a non-empty list in which no record qualifies gives the header row alone |
| Feed.QualifyingListed | lambda_handler.py:100-181 | every qualifying record's row appears in the output after the header |
| Scenario.TestRecordsSkipped | test_airtable_rg.py:49-130 | none of the test's four records passes the filter with the statuses the test gives them |
| Scenario.AlienSkipped | test_airtable_rg.py:56-62 | the record of species "Alien" is rejected by its species whatever its status, the marker included |
| Scenario.TestFeedHeaderOnly | test_airtable_rg.py:132-168 | as written, the test's feed is the header row alone, so its per-row assertions are never reached |
| Scenario.IntendedRecordsListed | test_airtable_rg.py:49-130 | with the marker in the alien's, the dog's and the cat's status, exactly the dog and the cat qualify, in order |
| Scenario.IntendedFeedRows | test_airtable_rg.py:140-168 | with the marker in the three statuses the feed is the header row, the dog's row and the cat's row |
| Scenario.FidoRow | test_airtable_rg.py:144-153 | the dog's row holds the cells the test expects at the positions of the filled columns |
| Scenario.FreyaRow | test_airtable_rg.py:156-168 | the cat's row holds the cells the test expects at the positions of the filled columns |
| Scenario.IntendedDogRow | test_airtable_rg.py:143-153 | with the marker in place, the feed's second row is the dog's row the test expects, empty outside the filled columns |
| Scenario.IntendedCatRow | test_airtable_rg.py:155-168 | with the marker in place, the feed's third row is the cat's row the test expects, empty outside the filled columns |

## Left out

- `get_airtable_pets` is an HTTPS fetch with configuration lookup and logging. It is network I/O.
- `upload_to_rescue_groups` is an FTP session and file upload. It is network I/O.
- `lambda_handler` is the entry point, with exception wrapping and logging.
- The file itself is not modelled: its name, its path, the open, and `csv.writer`'s quoting. The output is the sequence of rows the writer is given.
- The handler writes the header row (line 68) before it resolves the layout (lines 71-98). When a column is missing, the header-only file left behind is not modelled; the model returns the layout's error.
- `CSV_HEADERS` lives in `constants.py`, which is not part of this model. The header row is a parameter, and the model does not fix its width or order.
- Every record is assumed to carry an `id` and a `fields` map, and every picture a `url`. The handler raises `KeyError` otherwise (`pet["fields"]` at lambda_handler.py:103, `pet["id"]` at 113, `picture["url"]` at 168); the model's records always have these, so that error path is not modelled.
- A record's `Pictures` list is kept beside its string fields as a list of URLs. The other keys of a picture are not modelled.
- Field values are strings. A field present with a non-string value (JSON null, number or list) is not modelled. Python's `None` from a missing field is written as `""`, and so is the model's.
- Rows.FieldValue gives empty breed and colour for a species other than "Dog" or "Cat". The handler never assigns them then, and the filter never lets such a record reach the row builder.
- Scenario: the header row of the repository's test is not modelled. It comes from `constants.py`, so the scenario states the test's expected cells by column name rather than by the test's positions.

## Findings

| source | as written | input that shows it | evidently intended | confidence | as-written member | corrected member |
|---|---|---|---|---|---|---|
| test_airtable_rg.py:66-96 | the dog's status is "Published" and the cat's is "x Published". Neither contains "Published - Available", the marker the filter requires, so the feed holds the header row only and the loop over data rows never runs | the test's own four records, with any header row that has the 26 filled columns | statuses that contain the marker, so the dog's and the cat's rows are written and compared with the expected cells | not executed; high | Scenario.TestFeedHeaderOnly | Scenario.IntendedFeedRows |
