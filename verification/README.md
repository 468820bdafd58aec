# Metadata-to-Sqlite ingestion core in Dafny

This project models the pure list- and map-shaping logic on the ingestion path of
Metadata-to-Sqlite. That path takes photo metadata extracted by exiftool and stores it in
one SQLite table, `photo_metadata`, whose columns come from a tag taxonomy (`tags.json`,
key `metadata_tags`). The taxonomy maps group (exif, iptc, xmp) → raw tag name →
`[declared type, column fragment]`.

Two revisions of the code are modelled side by side:

- **Current** (`databaseManager.py`, `metadataLoader.py`):
  - the declared type goes into the DDL verbatim;
  - string values are whitespace-stripped;
  - the identity value is rendered with `str()`;
  - the exiftool command carries `-m 2000m`.
- **Legacy** (`keywords-to-region.py`):
  - declared types are upper-cased;
  - string values are sanitised with `re.sub(r"[^\w\d_]+", "_", v)` and changed tags are
    reported as problematic;
  - the identity value is used raw;
  - the command has no memory option.

Modules:

| module | what it models |
|---|---|
| `Results` | Python's `KeyError` as a `Failure`, for a missing group or a record without `SourceFile` |
| `Strings` | `str.join`, `str.split` (as the inverse of join), `replace("-", "_")`, `strip()`, `upper()` |
| `Sanitizer` | the legacy regex substitution of maximal non-word runs |
| `Dicts` | a Python dict built by assigning `(key, value)` pairs in order, a later key overwriting |
| `Tags` | the taxonomy as ordered groups of ordered tags, their flattening into `(group, tag)` entries, `metadata_tags[g]` lookups, `combine_tag_group_and_tag_name` |
| `Schema` | the `CREATE TABLE` column list, the column map, `get_column_names` |
| `Records` | extractor records, key renaming, per-record value lists for both revisions |
| `Command` | the exiftool argument list |
| `Alignment` | how the INSERT column list and value list line up |

Modelling choices:

- A JSON object from the extractor is a sequence of `(key, value)` pairs in document order.
  This lets the model say which member wins when two keys are renamed alike. As in a
  Python dict, the keys of one object are distinct: the renaming loop and
  `convert_metadata_json_to_list` require it. A renamed record is a `map`.
- Values are `Str`, `Int`, `Bool`, `Null` or `Other(text)`. `Other` stands for a float, list
  or object and carries the text `str()` would give it.
- The model follows the code as written:
  - There is no collision check on column names: a colliding sanitised key silently overwrites.
  - There is no per-column insert fallback and no diagnostics sink.
  - The DDL uses the unprefixed column fragment, while the column map uses `group_tag`.
  - A record without `SourceFile` raises `KeyError`. It is not a per-record diagnostic.
  - The current revision strips but does not sanitise.
- `convert_metadata_json_to_list` checks each key against the whole parsed `tags.json`
  document. Here the tag table is a `map<string, string>` parameter.

## Model

| member | source | states |
|---|---|---|
| Tags.CombineSplit | databaseManager.py:11-13 | `group_tag` splits back at its first underscore into group and tag when the group has no underscore, so the qualified name determines both (same function at keywords-to-region.py:189-191) |
| Tags.FindGroup | databaseManager.py:20-22 | `metadata_tags[g]` succeeds exactly when a group named `g` exists and returns a group of the taxonomy with that name; otherwise it is `KeyError(g)` |
| Tags.SelectGroups | metadataLoader.py:64-65 | looking up a list of groups succeeds exactly when every name is present and returns one group per name, in order; otherwise the KeyError names the first missing group |
| Tags.SelectAllGroups | databaseManager.py:20-26 | when the taxonomy's groups are exactly the requested names in order, the lookups return the whole taxonomy |
| Schema.CreateTableColumns | databaseManager.py:24-30 | the column list fails exactly when one of exif, iptc, xmp is missing, with a KeyError naming the first missing one in that order; otherwise element 0 is `[SourceFile] TEXT`, followed by exactly one `[column] type` per tag of exif, iptc, xmp in order, using the unprefixed column fragment and the declared type (verbatim in Current, upper-cased in Legacy) |
| Schema.TagColumnDefs | keywords-to-region.py:182-186 | the inner loop gives one definition per tag in tag order, built from the tag's own column fragment and its type upper-cased in the legacy revision; the computed `full_column_name` plays no part |
| Schema.CreateTableStatementColumns | databaseManager.py:31 | the statement starts with `CREATE TABLE IF NOT EXISTS photo_metadata (` and ends with `)`, and when no definition contains a comma the column list splits back out of it |
| Schema.DeclaredNameOfColumnDef | databaseManager.py:30 | a definition `[column] type` whose fragment has no `]` declares a column named exactly `column` |
| Schema.CreateTableDeclaresColumns | databaseManager.py:24-31 | position by position, the DDL declares `SourceFile` and then each selected tag's column fragment, in DDL order; these are the names the table is taken to have (see "## Left out") |
| Schema.LoadColumnMapKeys | databaseManager.py:35-45 | every tag of every group yields key `group_` + tag with `-`→`_`; every key is such a key or SourceFile; SourceFile maps to itself |
| Schema.LoadColumnMapSize | databaseManager.py:35-45 | the column map has at most 1 + number of tags entries |
| Schema.LoadColumnMapLastWins | databaseManager.py:40-43 | a tag whose key no later tag produces again has its own `group_tag` under that key, so a later colliding tag overwrites an earlier one |
| Schema.ColumnKeyNotSourceFile | databaseManager.py:43-44 | no tag's column-map key equals `SourceFile`, so the final SourceFile assignment never overwrites a tag entry |
| Schema.LoadColumnMapNoCollision | keywords-to-region.py:197-211 | when no two tags share a sanitised key, the map has exactly 1 + number of tags entries and every tag's key maps to its own `group_tag` |
| Schema.GetColumnNames | databaseManager.py:52-58 | the result starts with SourceFile; the rest is the input with its first SourceFile removed, other columns in original order; the length is unchanged if SourceFile was present and one more otherwise; as a multiset, the input plus SourceFile if it was absent |
| Schema.GetColumnNamesFixed | databaseManager.py:55-57 | a column list already starting with SourceFile is returned unchanged |
| Schema.GetColumnNamesIdempotent | databaseManager.py:55-57 | reordering twice equals reordering once |
| Records.RenameRecordContents | metadataLoader.py:47-52 | the renamed record's keys are exactly the renamed input keys (`tags[key]` if present, else the key); a member that no later member renames alike keeps its value; it has at most as many keys as members |
| Records.RenameWithoutMatches | keywords-to-region.py:156-161 | a record with no key in the tag table comes out identical to the plain dict of its members |
| Records.RenameMembers | keywords-to-region.py:157-161 | the inner loop, one assignment per member in order, builds exactly the renamed record |
| Records.ConvertMetadataJsonToList | metadataLoader.py:41-54 | one output record per input record, same length and order, each being the input record renamed |
| Records.PrepareValues | databaseManager.py:60-69 | fails with KeyError exactly when SourceFile is absent; otherwise length 1 + total tags over all groups; element 0 is `str()` of SourceFile; each later value is looked up under the hyphen→underscore tag name with no group prefix: missing → `""`, string → stripped, anything else unchanged |
| Records.ProblematicKeys | keywords-to-region.py:227-237 | every tag whose string value sanitisation changes is reported; there are no more reports than tags |
| Records.ProblematicKeysFlagged | keywords-to-region.py:234-237 | only tags whose string value sanitisation changes are reported |
| Records.PrepareLegacyValues | keywords-to-region.py:225-240 | fails with KeyError exactly when SourceFile is absent; otherwise the raw SourceFile value first, then one value per tag (missing → `""`, string → sanitised, other unchanged); a key is reported exactly when its value is a string not made of word characters only, so the `""` default is never reported |
| Strings.ReplaceHyphensProperties | databaseManager.py:64 | `tag.replace("-", "_")` leaves no hyphen, changes the tag exactly when it has one, and is idempotent |
| Strings.Strip | databaseManager.py:66-67 | the stripped value is a contiguous part of the input whose cut-off margins are all whitespace and which does not itself begin or end with whitespace |
| Strings.StripUnique | databaseManager.py:66-67 | any decomposition into whitespace margins around a core without edge whitespace has that core as the result of `strip()` |
| Strings.StripIdempotent | databaseManager.py:66-67 | stripping twice equals stripping once |
| Strings.UpperAscii | keywords-to-region.py:186 | `upper()` keeps the length, leaves no lower-case ASCII letter, shifts each lower-case letter to its capital and leaves every other character unchanged |
| Strings.SplitJoin | metadataLoader.py:65 | joining non-empty lists of pieces that have no separator with a separator and splitting again gives the pieces back |
| Sanitizer.Sanitize | keywords-to-region.py:234 | the sanitised value contains only word characters and is never longer than the input |
| Sanitizer.SanitizeWordPrefix | keywords-to-region.py:234 | a leading run of word characters is copied through unchanged |
| Sanitizer.SanitizeNonWordRun | keywords-to-region.py:234 | a maximal non-empty run of non-word characters becomes exactly one underscore |
| Sanitizer.SanitizeUnchangedIff | keywords-to-region.py:234-235 | sanitisation leaves a string unchanged if and only if it consists of word characters only |
| Sanitizer.SanitizeIdempotent | keywords-to-region.py:234 | sanitising twice equals sanitising once |
| Dicts.AssignContents | metadataLoader.py:47-52 | a dict filled by successive assignments has exactly the assigned keys, each holding the value of its last assignment |
| Dicts.AssignDistinct | databaseManager.py:40-44 | when no key is assigned twice, the dict has one entry per assignment, each holding its assigned value |
| Command.ExiftoolCommand | metadataLoader.py:61-69 | fails exactly when one of exif, iptc, xmp is missing, with a KeyError naming the first missing one in that order; otherwise the argument list for those three groups in that order |
| Command.Arguments | metadataLoader.py:64-69 | 8 elements (7 in the legacy revision): `exiftool` first, `-m 2000m` second (Current only), then `-r -progress -j`, the exclusion filter, the space-join of `-group:tag` over the groups' entries, and last the folder in double quotes |
| Command.TagArguments | metadataLoader.py:65 | one `-group:tag` request per entry, in entry order |
| Command.ExcludeFilterText | metadataLoader.py:67-68 | the exclusion filter is exactly `--ext .txt --ext .csv --ext .db --ext .args --ext .json` |
| Command.TagArgumentSplits | keywords-to-region.py:267-268 | when no group or tag name holds a space, the tag argument splits back into one `-group:tag` per tag in order |
| Command.LegacyCommandOmitsMemoryOption | keywords-to-region.py:264-273 | the legacy command succeeds exactly when the current one does and equals it without the `-m 2000m` element |
| Alignment.InsertLinesUp | databaseManager.py:95-109 | with groups exactly exif, iptc, xmp: `get_column_names` returns the created table's columns unchanged, their count equals the DDL's and the prepared values', and position i+1 pairs tag i's column fragment with the value looked up for tag i |
| Alignment.LegacyInsertLinesUp | keywords-to-region.py:218-246 | with groups exactly exif, iptc, xmp, the legacy value list matches the table's column count, with the raw SourceFile first and tag i's sanitised value at position i+1 |

## Left out

- SQLite (connect, execute, commit, close), the `SELECT *` that reads column names back, and the error printing around failed inserts (databaseManager.py:16,31-33,53,71-85,92-112; keywords-to-region.py:85-89,214-262). The store is a foreign library. The table's column names are taken to be the names its DDL declares (`Schema.TableColumnNames`). An INSERT whose column and value counts differ, or a DDL that declares a column twice, fails in SQLite; the model does not model that failure.
- The hard-coded `problem_index = 22` at databaseManager.py:83. It is a debugging artefact.
- Running exiftool through `subprocess` and parsing progress percentages from its output (metadataLoader.py:10-39; keywords-to-region.py:98-148). This is process I/O.
- All file I/O and JSON decoding: reading `tags.json`, writing `errors.txt`, `exiftool_command.txt` and `metadata.json`. The `JSONDecodeError` paths are left out too. The model takes already-parsed data.
- The Qt window and metadata_to_sqlite.py. They are GUI wiring with no logic of their own.
- A tag definition that is not a two-element list raises `ValueError` at the tuple unpacking. Definitions here are typed pairs, so this cannot arise.
- Duplicate keys inside one JSON object of `tags.json`. Python's dicts make group names and tag names unique; `Tags.WellFormed` states this and is assumed only where needed.
- Sanitizer.Sanitize: the word-character class is ASCII `[A-Za-z0-9_]`, not Python's Unicode-aware `\w`.
- Strings.UpperAscii: only ASCII letters are upper-cased, while Python's `str.upper` also maps other scripts.
- Records.PyStr: `str()` of floats, lists and objects is not computed. Their rendering is carried in `Value.Other`.
- Records.PrepareLegacyValues: states which keys are reported as problematic, not the order or repetition of the reported list.
- Records.ConvertMetadataJsonToList: the tag table is a plain key→name map. In the source it is the whole parsed `tags.json` document, whose top-level keys are not extractor keys.
