# Object-detection report: the parse-and-tally step

`report-app.py` is a dashboard for the log that an object detector (YOLO) writes. At
module level the script does four things:

- it reads the log;
- it finds every occurrence of the pattern
  `image \d/\d (.+?): (\d+x\d+) (.+?), (\d+\.\d+)ms` with `re.findall`;
- it builds one record per occurrence, holding the file name (the part of the path after
  the last `/`) and the comma-separated object items, each stripped;
- it turns the records into a pandas table.

The table has an `Object Count` column (the number of items) and one column per object
category. A category is the second word of an item. A cell is the sum of the leading
integers of the row's items with that label.

This project models those steps in Dafny and proves what they compute:

- `wrappers.dfy` (`Wrappers`): `Option` and `Result`.
- `text.dfy` (`Text`): the Python string operations the script uses, written out over
  `string`:
  - `str.split(',')` and `'/'`, with its inverse `join`;
  - `str.strip()` and `str.split()`;
  - `int()` on a token;
  - `path.split('/')[-1]`.
- `pattern.dfy` (`Pattern`): a matcher written by hand for this one pattern, and the
  `re.findall` scan over the whole text. It is proved sound (every match is the header
  followed by its groups re-joined by the pattern's literals, within one line), lazy and
  complete for text in the pattern's shape.
- `report.dfy` (`Report`):
  - the record loop (lines 25-33) as a method growing a sequence;
  - the aggregation (lines 35-46) as specification functions;
  - the loop over the categories (lines 43-44) as a method that adds one column per
    category.

  The lemmas it proves:
  - which columns exist;
  - what each cell sums;
  - when the script fails;
  - that a row's cells add up to the sum of its counts.
- `scenarios.dfy` (`Scenarios`): what the model computes for whole log lines. A line
  with two categories and a line whose one item has no integer count are stated for any
  newline-free path without `: ` inside, any sizes and counts, and any one-word labels
  without ','. Each is then instantiated for one concrete line. A line whose image
  index has two digits is stated only for one concrete line.

Two differences between the behaviour as usually described and the code, where the model
follows the code:

- `Object Count` is `len(items)`, the number of items. It is not the number of objects:
  `2 person, 1 car` gives 2, while its cells add up to 3 (`Scenarios.ObjectCountIsNotTotal`).
- There is one row per match of the pattern, not per line. A line could hold two matches;
  a line that does not match gives nothing.

The script raises an error in three cases, in this order, and the model returns a
matching error value:

- `NoRecords`: no match at all. `pd.DataFrame([])` has no `Objects` column, so line 37
  raises `KeyError`.
- `LabelMissing`: an item with fewer than two words (`IndexError` at line 40).
- `CountNotInteger`: an item whose first word `int()` refuses (`ValueError` at line 44).
  Every item is counted under its own label, so every item's first word reaches `int()`.
  A detector line `(no detections)` ends here (`Scenarios.EmptyReport`).

## Model

| member | source | states |
|---|---|---|
| Pattern.MatchAt | report-app.py:20 | one attempt of the pattern at a position: the header, then the least path end for which the rest matches, then the least object end followed by `, <float>ms`; a match found starts with the header and ends after it, inside the text (the lemmas below pin it down) |
| Pattern.FindAll | report-app.py:23 | the scan of `re.findall`: a match at the position is taken and the scan resumes at its end; otherwise the scan moves on by one (`FindAllSound`, `NoHeaderNoMatch`) |
| Pattern.Matches | report-app.py:23 | `re.findall(pattern, text)`: the scan from the start of the text |
| Pattern.MatchAtSound | report-app.py:20 | a match at `p` starts with `image d/d `; its path and object text are non-empty and newline-free; its resolution is `digits x digits` and its time `digits . digits`; the text after the header is exactly the groups joined by `: `, ` `, `, ` and `ms`; the match ends within the line it starts on |
| Pattern.MatchAtLazy | report-app.py:20 | the two `.+?` groups are as short as possible: no shorter path lets the rest match, and no shorter object text is followed by `, <float>ms` |
| Pattern.MatchAtComplete | report-app.py:20 | every `image d/d ` header followed by text of the pattern's shape matches |
| Pattern.MatchAtExact | report-app.py:20 | such text is matched with exactly those groups, and the match ends where the text does, when no `: ` starts inside the path and no `, <float>ms` starts inside the object text |
| Pattern.FindAllSound | report-app.py:23 | each match `re.findall` returns is an instance of the pattern at its own position; the matches come in text order and do not overlap |
| Pattern.NoHeaderNoMatch | report-app.py:20-23 | a text without an `image d/d ` header gives no match |
| Text.LastComponent | report-app.py:28 | `path.split('/')[-1]` (`LastComponentIsBasename`, `LastComponentNoSlash`) |
| Text.LastComponentIsBasename | report-app.py:28 | the file name holds no '/'; the path ends with it; the character before it is a '/' unless it is the whole path |
| Text.LastComponentNoSlash | report-app.py:28 | a path without '/' is kept unchanged |
| Text.SplitOn | report-app.py:29 | `str.split(c)` for one separator character: never empty, empty pieces kept (`SplitOnPieces`, `JoinSplitOn`, `SplitOnJoin`) |
| Text.SplitOnPieces | report-app.py:29 | `split(',')` gives one piece more than there are commas, and no piece holds a comma |
| Text.JoinSplitOn | report-app.py:29 | joining the pieces of a split gives the text back |
| Text.SplitOnJoin | report-app.py:29 | splitting a join of comma-free pieces gives the pieces back |
| Text.Strip | report-app.py:29 | `str.strip()` with Python's whitespace (`StripBounds`, `StripEmpty`, `StripIdempotent`) |
| Text.StripBounds | report-app.py:29 | `strip()` gives the slice between the first and last non-whitespace characters; everything cut away is whitespace |
| Text.StripEmpty | report-app.py:29 | `strip()` gives an empty string exactly on text made only of whitespace |
| Text.StripIdempotent | report-app.py:29 | stripping twice is stripping once |
| Text.Words | report-app.py:40 | `str.split()` with no argument: the maximal runs of non-whitespace characters (`WordsShape`, `WordsCoverText`, `WordsSpaced`) |
| Text.WordsShape | report-app.py:40 | the words of `split()` are non-empty and hold no whitespace |
| Text.WordsCoverText | report-app.py:40 | the words, run together, are exactly the non-whitespace characters of the text, in order |
| Text.WordsJoin | report-app.py:40 | splitting space-joined words gives the words back |
| Text.WordsSpaced | report-app.py:40 | splitting words laid out with any non-empty whitespace runs between them, and any whitespace before and after, gives the words back: where one word ends is fixed |
| Text.WordsBlank | report-app.py:40 | text made only of whitespace has no words |
| Text.ParseInt | report-app.py:44 | `int()` on a whitespace-free token (`ParseIntShowInt`, `ParseIntAlphabet`) |
| Text.ParseIntShowInt | report-app.py:44 | `int()` reads back every integer written in decimal |
| Text.ParseIntAlphabet | report-app.py:44 | whatever `int()` accepts is an optional leading sign, then digits and underscores, with at least one digit |
| Report.Items | report-app.py:29 | `[obj.strip() for obj in objects.split(',')]` (`ItemsCount`, `ItemsStripped`, `ItemsJoin`) |
| Report.ToRecord | report-app.py:27-33 | the record of one match: its last path component and its items; resolution and time dropped |
| Report.Records | report-app.py:25-33 | the records of all matches, in order (`BuildRecords`, `RowsOfMatches`) |
| Report.BuildRecords | report-app.py:25-33 | the loop gives one record per match, in order, holding the match's last path component and its stripped comma-separated items |
| Report.ItemsCount | report-app.py:29 | a record has one item more than its object text has commas, and no item holds a comma |
| Report.ItemsStripped | report-app.py:29 | every item is already stripped |
| Report.ItemsJoin | report-app.py:29 | clean items joined by `, ` as a detector prints them split back to the same items |
| Report.RowsOfMatches | report-app.py:25-37 | row `i` of a finished table comes from match `i`; its file name is the last path component, with no '/'; its `Object Count` is the number of commas in the object text plus one |
| Report.Label | report-app.py:40 | `item.split()[1]`, or no label where that raises `IndexError` (`LabelSpaced`, `LabelBlank`) |
| Report.LabelSpaced | report-app.py:40 | an item has a label exactly when it has at least two words, whatever whitespace lies around and between them; the label is the second word and the count is `int()` of the first |
| Report.LabelBlank | report-app.py:40 | an item made only of whitespace has no label, so line 40 raises `IndexError` |
| Report.AllLabels | report-app.py:40 | `all_objects`: the labels of all items of all records, in order (`AllLabelsHas`) |
| Report.Categories | report-app.py:41 | `set(all_objects)` (`CategoriesAreLabels`) |
| Report.AllLabelsHas | report-app.py:40 | a label is among `all_objects` exactly when some item of some record carries it |
| Report.CategoriesAreLabels | report-app.py:40-41 | the category columns are exactly the labels that some item carries |
| Report.Count | report-app.py:44 | `int(item.split()[0])` |
| Report.Term | report-app.py:44 | what one item adds to the column of a category: its count under its own label, 0 under any other |
| Report.Cell | report-app.py:44 | the `sum([...])` of one row's terms for a category, failing if one term fails (`CellDefined`, `CellAppend`, `CellAbsent`) |
| Report.CellDefined | report-app.py:44 | a cell can be computed exactly when every item that carries its label has an integer count |
| Report.CellAppend | report-app.py:44 | the cell of two lists of items is the sum of their cells, and fails when either fails |
| Report.CellAbsent | report-app.py:44 | a record with no item of a label has 0 in that column |
| Report.CountsParse | report-app.py:40-44 | every cell can be computed exactly when every item has an integer count |
| Report.Report | report-app.py:35-46 | the table, or the error the script stops with, for a list of records (`ReportErrors`, `ReportRows`, `TableTotal`) |
| Report.ReportOf | report-app.py:20-46 | the table or error computed from the log text: matches, then records, then `Report` (`Run`) |
| Report.ReportErrors | report-app.py:35-46 | the script fails exactly with no records, then with an item lacking a second word, then with a non-integer count; otherwise it gives a table |
| Report.ReportRows | report-app.py:35-46 | a table has one row per record, in order; each row has the record's file name, `Object Count` equal to its number of items, and a cell for exactly the categories, holding the record's cell |
| Report.RowTotal | report-app.py:44 | over all categories, each taken once, a record's cells add up to the sum of its items' counts |
| Report.TableTotal | report-app.py:37-44 | in a finished table, a row's category cells add up to the sum of its item counts, whatever the order of the categories |
| Report.ColumnsAdd | report-app.py:43-44 | adding the column of one more category to every row gives the rows' cells for the larger set of categories |
| Report.AddColumns | report-app.py:43-44 | the loop over the categories, taken in any order, gives every row's cells for all categories, or fails exactly when some cell cannot be computed |
| Report.Tabulate | report-app.py:35-46 | the table-building steps give exactly the table or the error of lines 35-46 |
| Report.Run | report-app.py:20-46 | from the log text: the matches, then the records, then the table or error |
| Scenarios.TwoCategoryLine | report-app.py:20-46 | the line `image 1/1 <path>: <WxH> <a> <l1>, <b> <l2>, <t>ms` gives one row: the last component of the path, `Object Count` 2, and cells `a` and `b` under `l1` and `l2` |
| Scenarios.UncountedLine | report-app.py:20-46 | a line whose one item is two words, the first one `int()` refuses, stops the script with `ValueError` |
| Scenarios.DetectedReport | report-app.py:20-46 | `image 1/1 foo.jpg: 640x480 2 person, 1 car, 12.3ms` gives the row `foo.jpg`, 2, person 2, car 1 |
| Scenarios.ObjectCountIsNotTotal | report-app.py:37 | in the row the model computes for that line, `Object Count` is 2, while the category cells add up to 3 |
| Scenarios.EmptyReport | report-app.py:44 | `image 1/1 a.jpg: 640x480 (no detections), 5.0ms` stops the script with `ValueError` |
| Scenarios.TwoDigitReport | report-app.py:20 | `image 10/12 ...` gives no match, so there is no table |

## Left out

- Reading `detection_results.txt` and the logo (lines 16-17, 50-53): file I/O. The model
  starts from the text of the log.
- `main()` (lines 48-117): the Streamlit layout, the selection box and the Plotly charts
  are UI delegated to libraries. Base64 encoding of the logo is also left out.
- pandas: the table is a sequence of rows, each a file name, an `Object Count` and a map
  from category to cell. The order of the category columns comes from a Python `set` and
  is not modelled: `AddColumns` takes the categories in any order.
- A category named like an existing column (`Filename`, `Objects`) would overwrite that
  column in pandas. Such collisions are not modelled.
- The resolution and time groups are matched and checked, then dropped, as line 27 does.
  The time is never read as a floating-point number.
- `\d` and `int()` accept only ASCII digits in the model. Python also accepts other
  Unicode decimal digits in both.
- `int()` is modelled on the whitespace-free tokens that `split()` returns. Its handling
  of surrounding whitespace is therefore not needed.
- Text.ParseInt: does not model the limit on the length of decimal strings that Python
  3.11 and later (and the security releases 3.10.7, 3.9.14 and 3.8.14) impose. There,
  `int()` raises `ValueError` on more than 4300 digits, so the script would stop at line
  44; the model accepts such a count. The limit depends on the interpreter's version and
  settings (`sys.set_int_max_str_digits`).
- A general regular-expression engine: only this one pattern is modelled, with the
  backtracking order Python uses for its two lazy groups (path first, then objects).
- Pattern.MatchAtExact: assumes that no `: ` starts inside the path. The script also
  matches a path holding `: ` with the same groups unless what follows that `: ` fits
  the rest of the pattern too; that case is not covered.
- Scenarios.TwoCategoryLine: stated for paths without `: ` inside, as for
  `MatchAtExact`.
- Scenarios.UncountedLine: stated for paths without `: ` inside, as for `MatchAtExact`.
- Pattern.FindAllSound: states only that what `re.findall` returns is sound and in order,
  not that it is complete over a whole text. Completeness is proved for a single position
  (`MatchAtComplete`, `MatchAtExact`), not for a whole text whose matches might compete.
