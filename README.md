# ssr2_to_osm: the status page's main table

`generate_webpage.py` builds the import status web page for the
SSR2-to-OpenStreetMap conversion. It lists each kommune (municipality)
directory of the output tree. Its core is `create_main_table`, and this
project models that function. It reads the listing of the data directory.
Each directory named after a kommune number is looked up in two tables:
kommune number to kommune name, and kommune number to (fylke name, fylke
number). `fylke` is the Norwegian county. The directory's tree is then
walked, and each data file it holds becomes an HTML link. The link is
placed in one of five columns of the kommune's row:

- log;
- dataset for import;
- excerpts;
- excluded from import;
- raw data.

The function returns the rows and the list of fylker it met, without
repeats.

The model, module by module:

- **PyStr** (`strings.dfy`): the Python 2 string operations the code relies on.
  - `startswith`, `endswith` and `in`.
  - `str.replace`: left to right, with no overlapping matches.
  - `unicode.strip()`, using the Python 2.7 whitespace table.
  - `int()` on a directory name: surrounding whitespace, an optional sign followed by optional whitespace, ASCII digits.
  - `'%s' % n`.
  - POSIX `os.path.join`.
- **Label** (`label.dfy`): `create_text`, the label of a data file. Also the href rewrite (`html/` removed) and `link_template`.
- **Classify** (`classify.dfy`): the extension filter and the if/elif chain that chooses a file's column.
- **Region** (`region.dfy`): the two `try` blocks that turn a directory name into a kommune name and a fylke. Their outcome is one of three:
  - a row;
  - a logged warning, with the directory skipped;
  - an error that ends the run.
- **MainTable** (`table.dfy`): `create_main_table` written imperatively.
  - `CreateMainTable` loops over the listing and calls `VisitFolder` once per directory.
  - `VisitFolder` runs the two lookups, then `WalkFolder`.
  - `WalkFolder` loops over the files the tree walk yields and calls `SortFile` for each.
  - Each method is proved equal to a specification function: `Run`/`Step` for the listing, `BucketLinks` for one column.
- **TableFacts** (`facts.dfy`): what the function promises over a whole listing, proved about `Run` and `BucketLinks`.

The file system is an input value. A `DirEntry` is one listed name. It
records whether the name is a directory, and the `(root, file name)` pairs
that `os.walk` yields for it, in walk order. The two lookup tables are
`map`s. A warning that the source logs is collected in an output sequence
in the model.

Where the written description of the program and the code disagree, the
model follows the code:

- The description says a dated name such as `2020-01-01-tagged-all.osm`
  is labelled `all.osm` with a node count. The code removes only the first
  five characters (`2020-`) and gives `01 01  all.osm (0 node)`.
- The node parse is disabled in the code (`osm = []`). So every `.osm`
  label ends in ` (0 node)`, in the singular.
- A `ZZ` directory ("Outside mainland") takes the `fylke_nr` of the last
  region whose fylke lookup succeeded. If no such region came before it,
  Python raises `UnboundLocalError` at line 179. The model reports this as
  `UnboundFylkeNr`.
- The second `raise ValueError(e)` (line 147) cannot be reached. A
  non-numeric name other than `ZZ` has already raised at line 129.

## Model

| member | source | states |
|---|---|---|
| PyStr.Replace | generate_webpage.py:73-75 | `str.replace` with a non-empty pattern; a same-length replacement keeps the length |
| PyStr.ReplaceAbsent | generate_webpage.py:162 | a string without the pattern comes back unchanged |
| PyStr.ReplaceCharAt | generate_webpage.py:73 | replacing one character by another is a pointwise substitution, so the length is kept |
| PyStr.ReplaceCharRemoves | generate_webpage.py:73 | after `replace('-', ' ')` no hyphen is left |
| PyStr.ReplaceNoNewChar | generate_webpage.py:74-75 | a replacement adds no character that is in neither the input nor the replacement |
| PyStr.ReplaceLeading | generate_webpage.py:162 | a leading occurrence is replaced first, and the rest is replaced independently |
| PyStr.ReplaceDisjointTail | generate_webpage.py:73-75 | a replacement whose pattern shares no character with a tail leaves that tail in place |
| PyStr.Strip | generate_webpage.py:76 | definition: `unicode.strip()` with the Python 2.7 whitespace table |
| PyStr.StripChars | generate_webpage.py:76 | the result is empty or neither starts nor ends with whitespace |
| PyStr.StripIsWindow | generate_webpage.py:76 | strip keeps a contiguous window of its input, and everything outside the window is whitespace |
| PyStr.StripKeepsSuffix | generate_webpage.py:76 | strip never cuts into a suffix that has no whitespace in it |
| PyStr.StripNoNewChar | generate_webpage.py:76 | strip adds no character |
| PyStr.StripNothing | generate_webpage.py:76 | a string without whitespace at either end is its own strip |
| PyStr.StripIdempotent | generate_webpage.py:76 | stripping twice equals stripping once |
| PyStr.NatToString | generate_webpage.py:86 | `'%s' % n` is a non-empty digit string with no leading zero |
| PyStr.DigitsValueOfNatToString | generate_webpage.py:86 | the decimal digits of n read back as n |
| PyStr.ParseIntOfNatToString | generate_webpage.py:120 | `int()` reads back the decimal text of every natural number |
| PyStr.ParseInt | generate_webpage.py:120 | definition: `int()` on a byte string: whitespace, an optional sign, whitespace again, at least one ASCII digit, whitespace |
| PyStr.DigitsValueLeadingZero | generate_webpage.py:120 | a leading zero does not change a digit string's value |
| PyStr.ParseIntZeroPadded | generate_webpage.py:120 | `int()` reads a zero-padded number as that number (`0301` is 301) |
| PyStr.ParseIntSpaceAfterSign | generate_webpage.py:120 | whitespace between the sign and the digits is accepted (`- 5` is -5) |
| PyStr.ParseIntNeedsDigit | generate_webpage.py:119-129 | a name with no digit (such as `ZZ`) is not a number |
| PyStr.Join | generate_webpage.py:160 | `os.path.join(root, f)` ends with f, and starts with root unless f is absolute |
| Label.NodeCountText | generate_webpage.py:85-88 | `'%s node'` with the count's digits, then an `s` exactly when there is more than one node, and nothing else (its length is pinned) |
| Label.HasDatePrefix | generate_webpage.py:71 | definition: four ASCII digits and a hyphen at the start of the name |
| Label.Rename | generate_webpage.py:73-75 | definition: the three replacements, in order |
| Label.DatedLabel | generate_webpage.py:72-78 | definition: prefix dropped, renamed, stripped, and a bare `.osm` shown as `all.osm` |
| Label.BaseLabel | generate_webpage.py:70-78 | definition: the dated label for a dated name, the name itself otherwise |
| Label.CreateText | generate_webpage.py:69-96 | a name not ending in `.osm` is returned as is; an `.osm` label ends in ` (0 node)`, never in `nodes)` |
| Label.NodeSuffixValue | generate_webpage.py:84-93 | because the parse is disabled, the annotation is always ` (0 node)` |
| Label.CleanPrefixIff | generate_webpage.py:80-93 | the label is `clean-` + base label + ` (0 node)` exactly when `clean` occurs in the full path; otherwise it is the base label + ` (0 node)` |
| Label.UndatedNameKept | generate_webpage.py:70-93 | an `.osm` name with no date prefix keeps its text, with the optional `clean-` and the count |
| Label.DropSpaceKeepsOsm | generate_webpage.py:75 | removing the space before `.osm` keeps a name ending in `.osm` |
| Label.DatedLabelNoHyphen | generate_webpage.py:72-78 | the label of a dated name has no hyphen |
| Label.DatedBeforeStripEndsWithOsm | generate_webpage.py:72-75 | the three replacements keep a dated `.osm` name ending in `.osm` |
| Label.StripKeepsOsm | generate_webpage.py:76 | the strip keeps a trailing `.osm` |
| Label.DatedLabelEndsWithOsm | generate_webpage.py:71-78 | the label of a dated `.osm` name still ends in `.osm` |
| Label.DatedLabelStripped | generate_webpage.py:76-78 | a dated label is never the bare `.osm` and has no whitespace at either end |
| Label.RenameTaggedOnly | generate_webpage.py:73-75 | the renaming turns `tagged.osm` into `.osm` |
| Label.TaggedDatedLabel | generate_webpage.py:71-78 | `<4 digits>-tagged.osm` has the date prefix, and its dated label is `all.osm` |
| Label.TaggedOnlyIsAll | generate_webpage.py:69-96 | outside `clean` paths, `<4 digits>-tagged.osm` is labelled `all.osm (0 node)` |
| Label.HrefDropsOutputRoot | generate_webpage.py:162 | a path `html/` + rest, where rest has no further `html/`, becomes rest |
| Label.HrefKeepsOtherPaths | generate_webpage.py:162 | a path that never mentions `html/` is its own link target |
| Label.Href | generate_webpage.py:162 | definition: every `html/` removed from the path |
| Label.Link | generate_webpage.py:163-165 | definition: the link template filled with target, title and text, without escaping |
| Label.UntilQuoteOf | generate_webpage.py:16 | reading up to the first double quote recovers text that has none |
| Label.LinkHrefRoundTrip | generate_webpage.py:163-165 | the `href` read back from a formatted link is the target, when the target has no double quote |
| Classify.FirstMatch | generate_webpage.py:166-177 | the chosen rule holds, and no rule before it in the list holds; when none is chosen, no rule holds |
| Classify.ClassifyIsFirstMatch | generate_webpage.py:166-177 | the if/elif chain tries exactly the rules clean, dataset, excluded, raw, log, in that order |
| Classify.Rank | generate_webpage.py:166-175 | each column's position in the rule order |
| Classify.Considered | generate_webpage.py:159 | definition: the name ends in `.osm`, `.xml`, `.log` or `.gml` |
| Classify.Classify | generate_webpage.py:166-177 | definition: the if/elif chain |
| Classify.FileBucket | generate_webpage.py:159-177 | definition: the chain applied to the files that pass the extension filter |
| Classify.NoneHoldsBelow | generate_webpage.py:166-175 | no earlier test of the chain holds, spelled out test by test |
| Classify.FileBucketIff | generate_webpage.py:159-177 | a file is in column b exactly when its extension passes the filter, b's test holds, and no earlier test holds |
| Classify.OsmBuckets | generate_webpage.py:159-177 | an `.osm` file is never raw data or a log; it is dropped exactly when no clean, dataset or NoName/NoTags test holds |
| Classify.RawDataBucket | generate_webpage.py:170-173 | an `.xml`/`.gml` file outside `clean` is raw data unless it is marked NoName/NoTags, and a marked one is excluded |
| Region.OutsideCodeNotNumeric | generate_webpage.py:125-127 | `int('ZZ')` fails |
| Region.Resolve | generate_webpage.py:119-147 | the run fails exactly for a non-numeric name other than `ZZ`; a number missing from either table is skipped with the right warning; `ZZ` gives `Outside mainland` and no fylke; a number present in both tables gives its kommune name + ` kommune` and its fylke pair |
| Region.Message | generate_webpage.py:122-142 | every logged warning names the skipped directory |
| Region.ResolveKnownNumber | generate_webpage.py:119-137 | any name that `int()` reads as a number present in both tables, leading zeros or whitespace included, resolves to its kommune name and its fylke pair |
| Region.ResolveUnknownNumber | generate_webpage.py:119-124 | any name that `int()` reads as a number missing from the name table is skipped with the name warning |
| Region.ResolveZeroPadded | generate_webpage.py:119-137 | a zero-padded kommune directory such as `0301` resolves to the names of its number |
| MainTable.FileLink | generate_webpage.py:160-165 | definition: the link of a walked file, titled with its full path and showing its label |
| MainTable.BucketLinks | generate_webpage.py:156-177 | definition: the links of the walked files that land in one column, in walk order |
| MainTable.BuildRow | generate_webpage.py:179-188 | definition: the seven cells of a row, with the log header first |
| MainTable.AddFylke | generate_webpage.py:133-135 | definition: the pair is appended unless it is already there |
| MainTable.Step | generate_webpage.py:117-188 | definition: one pass of the loop body on the loop's variables |
| MainTable.Run | generate_webpage.py:116 | definition: the loop from the empty state, ending at the first error |
| MainTable.StopIsFinal | generate_webpage.py:119-179 | once an error is raised, the later directories change nothing |
| MainTable.SortFile | generate_webpage.py:159-177 | a file's link is appended to the list of the first test that holds, and to no other list |
| MainTable.WalkFolder | generate_webpage.py:151-177 | each column holds the links of the files that land in it, in walk order |
| MainTable.VisitFolder | generate_webpage.py:117-188 | one pass of the loop body: skip a non-directory, warn and skip, raise, or append the seven-cell row and record the fylke |
| MainTable.CreateMainTable | generate_webpage.py:109-194 | returns the rows, fylker and warnings of the listing's run, or its first error |
| TableFacts.StepSummary | generate_webpage.py:116-188 | what one directory does: it fails exactly when its name is malformed, or is `ZZ` with `fylke_nr` unbound; otherwise it adds at most one row, which extends the table and has the seven cells its head calls for, plus at most one fylke and one warning, and `fylke_nr` becomes its fylke number if it has one; a directory gives a row or a warning, never both |
| TableFacts.HeadOf | generate_webpage.py:119-188 | definition: the code, kommune name, fylke number, fylke cell and files of the row a directory calls for |
| TableFacts.LastFylkeNr | generate_webpage.py:132 | definition: the fylke number of the last directory whose fylke lookup succeeded |
| TableFacts.RowMatches | generate_webpage.py:179-188 | definition: a row holds the seven cells its head calls for |
| TableFacts.FylkerAreDistinctPairs | generate_webpage.py:132-194 | `fylker` has no repeats and holds exactly the fylke pairs met along the listing |
| TableFacts.FirstIndex | generate_webpage.py:134-135 | the position of the first occurrence |
| TableFacts.FirstIndexAppend | generate_webpage.py:134-135 | appending does not move a first occurrence |
| TableFacts.FirstEncounterOrderStep | generate_webpage.py:132-135 | adding one directory's pair keeps first-met order |
| TableFacts.FylkerInFirstEncounterOrder | generate_webpage.py:132-194 | `fylker` lists the pairs in the order they are first met |
| TableFacts.AssignedBeforeOfPrefix | generate_webpage.py:132 | whether `fylke_nr` is bound at position i depends only on the directories before i |
| TableFacts.FylkeNrBound | generate_webpage.py:132-179 | after the loop, `fylke_nr` is the fylke number of the last directory whose fylke lookup succeeded, and it is bound exactly when there is one |
| TableFacts.FatalOfPrefix | generate_webpage.py:116-147 | whether a directory is fatal depends only on the directories up to it |
| TableFacts.LastStepStopsIff | generate_webpage.py:125-179 | the last directory raises exactly when it is fatal |
| TableFacts.RunCompletesIff | generate_webpage.py:116-179 | the function returns exactly when no directory is fatal, that is, none is malformed and none is a `ZZ` before any fylke assignment |
| TableFacts.RowsMatchHeadsStep | generate_webpage.py:179-188 | appending a row with the seven cells of the new head keeps every row paired with its head |
| TableFacts.RowsFollowListing | generate_webpage.py:116-188 | there is one row per resolved directory, in listing order, and each row holds its own directory's cells: the fylke number (for `ZZ`, the one bound before it), the fylke cell `<fylke> fylke` (empty for `ZZ`), the log column `<code> <kommune name>` followed by its log links, and its dataset, excerpt, excluded and raw-data links; there is one warning per skipped directory; every directory gives a row or a warning |
| TableFacts.SortedCount | generate_webpage.py:159 | at most as many files are sorted as the walk yields |
| TableFacts.BucketsPartition | generate_webpage.py:159-177 | the five columns together hold exactly one link per sorted file |
| TableFacts.BucketHoldsOnlyItsFiles | generate_webpage.py:166-177 | every link in a column belongs to a walked file that lands in that column |
| TableFacts.LinkInItsBucket | generate_webpage.py:166-177 | the link of every walked file is in its column |
| TableFacts.BucketMembers | generate_webpage.py:156-177 | a link is in column b exactly when it is the link of a walked file that lands in b |
| TableFacts.OutsideMainlandRow | generate_webpage.py:126-188 | once `fylke_nr` is bound, a `ZZ` directory adds one row that reuses the earlier `fylke_nr`, has an empty fylke cell and the header `ZZ Outside mainland`, and leaves fylker and warnings unchanged |
| TableFacts.OutsideMainlandFirstFails | generate_webpage.py:144-179 | a `ZZ` directory while `fylke_nr` is unbound ends the run with that error |
| TableFacts.UnknownNumberSkipped | generate_webpage.py:119-124 | a directory whose name reads as a number missing from the name table adds no row, only its warning |

## Left out

- File system access is out: `os.listdir`, `os.path.isdir`, `os.walk`. The listing and each directory's walk are input values, and the order of the listing is whatever `os.listdir` gives.
- `last_update` and `os.path.getmtime`/`datetime` (lines 111, 190-192) are out: the model has no clock or file times. The function's third result is therefore not modelled.
- `kommunenummer` and `kommune_fylke` (lines 112-113) read the lookup tables from a cache. They are parameters here.
- `file_util.read_file` (line 83) reads the file, and the result is never used, because the OSM parse is commented out. The node count is the constant 0.
- `f.decode('utf8')` (line 158) is out: file names are already character strings here.
- The `logger.warning` output (lines 122, 140) is collected as a sequence of warnings. `Region.Message` gives its text.
- `write_template`, `main`, the command-line parsing, the header and footer strings, and `humanize` are out. They are page assembly and I/O around the table.
- PyStr.ParseInt: models CPython 2.7's `int()` on a byte string in base 10, including the whitespace it skips after the sign. A value too large for a machine `long` goes through Python's long parser instead, and the model reads it by the same rules. A name with a NUL byte cannot occur in a directory listing.
- PyStr.Replace: requires a non-empty pattern. Every pattern the code uses is non-empty, and Python's behaviour for an empty pattern is not modelled.
- PyStr.Strip: uses the Python 2.7 whitespace table for `unicode.strip()`. Other Python versions' tables differ slightly.
- The exception objects are out: the `ValueError` message and the traceback. Only which error ends the run is modelled.
