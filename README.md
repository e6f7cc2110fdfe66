# GEDCOM parser and duplicate finder, modelled in Dafny

This project models the two parts of a small genealogy back end that hold its logic:

- `parse_gedcom_content` reads the lines of a GEDCOM file and builds two dictionaries.
  - The individuals dictionary holds the id, the raw name, the first and last name, the birth date and place, the father and mother, and the family-as-child link.
  - The families dictionary holds the husband, the wife and the children.
- `find_duplicates` groups the individuals by a normalized key (first name, last name, birth date). It reports every pair inside a group, along with whether the two records have the same parents.

## How the model is organised

- `PyStr` holds the Python string operations the code relies on:
  - `split(" ", 2)` as `SplitSpace2`;
  - `startswith`;
  - `strip()` and `strip("@")`, both as `StripBy` with a set of characters to cut;
  - `lower()`.
  - `IndexOf`, the first occurrence of a character, is an internal helper behind `split(" ", 2)` and the name pattern. The source itself calls no `index` or `find`.
- `OrderedDict` is a Python dict: a key sequence in insertion order plus a map. Assigning to an existing key keeps its place.
- `Records` holds the two record types. `GedcomSyntax` holds:
  - the level-0 header test;
  - the tag constants;
  - `x or None`;
  - the name pattern `([^/]+)/([^/]+)/?` applied with `re.match`.
- `GedcomSweeps` gives each of the three loops of the parser as a function:
  - `Run1`/`Sweep1Step` and `Run2`/`Sweep2Step` fold over the lines;
  - `Resolve` maps `ResolveParents` over the individuals dictionary, key by key;
  - `Parse` composes them.
  - `GedcomParser.ParseGedcomContent` is the imperative three-loop method, proved equal to `Parse`.
- `Sweep1Properties`, `BlockProperties`, `Sweep2Properties` and `GedcomProperties` describe what `Parse` computes without reference to the loops.
  - The record of each id is the fold of the block of its last header.
  - Each field is the value of the last line with its tag.
  - Birth fields come from the last DATE/PLAC line fed while a birth block is open.
  - Parents are resolved through the family-as-child link.
- `DuplicateSpec` defines the grouping and the report as functions. `DuplicateFinder` holds the loops proved equal to them. `DuplicateProperties` proves that the report:
  - is sound and complete with respect to "same non-blank key";
  - is ordered, with groups in first-appearance order and pairs `i < j` within a group;
  - has the expected length.
- `PipelineProperties` connects the two parts: a report built from a parse never pairs a record with itself.

### Behaviour as written

The code is modelled as written. These consequences of the code are proved and are worth knowing:

- **Repeated INDI/FAM id.** Sweep 1 is last-wins: the record is rebuilt from the block of the last header for that id, and it keeps the dictionary position of the first header (`Sweep1Individual`, `Sweep1Keys`).
- **Sweep 2 is not last-wins.** It feeds DATE/PLAC lines to the current id under *every* INDI header with that id, so an earlier record's birth block still counts when the later one has none (`Sweep2Birth`, `BirthFrom`). This differs from a pure last-wins reading of duplicate ids: the model follows the code.
- **FAM headers during sweep 2.** A FAM header does not move the sweep-2 cursor and does not close an open birth block. Sweep 2 steps over it as if it were absent (`FamHeaderIsSkipped`).
- **Level-0 lines in sweep 1.** A level-0 line that is not an INDI/FAM header (e.g. `0 TRLR`) does not end the current record in sweep 1 (`Sweep1StepCursor`).
- **The BIRT test.** `1 BIRT` is a prefix test, so `1 BIRTH` also opens a birth block.
- **Resolvable links.** A family-as-child link is resolved only when it is present, non-empty and a key of the families dictionary (`Resolvable`).
- **Empty ids.** A header token made only of `@` gives the empty id.
- **`same_parents` needs a known father.** It is false when both fathers are unknown, even if the mothers agree (`SameParents`).

## Model

| member | source | states |
|---|---|---|
| GedcomParser.ParseGedcomContent | backend/gedcom_parser.py:3-101 | The three loops together return exactly `Parse(lines)`, the composition of the two sweeps and the resolution. |
| GedcomParser.RecordSweep | backend/gedcom_parser.py:6-65 | The first loop returns the dictionaries of the sweep-1 fold over all lines. |
| GedcomParser.BirthSweep | backend/gedcom_parser.py:68-92 | The second loop returns the individuals of the sweep-2 fold over all lines. |
| GedcomParser.ParentSweep | backend/gedcom_parser.py:95-99 | The third loop updates every individual in place to its resolved record. |
| GedcomSweeps.Sweep1Step | backend/gedcom_parser.py:13-65 | One line keeps the cursor invariant (the cursor names an existing record of its type) and never removes a record. An INDI header always leaves its id in the dictionary. |
| GedcomSweeps.Run1 | backend/gedcom_parser.py:13-65 | After any lines, every id some INDI header names is a key of the individuals. This is what makes the dictionary look-ups of the second loop safe. |
| GedcomSweeps.Sweep2Step | backend/gedcom_parser.py:70-92 | One line of the second loop keeps the dictionary keys and their order, and the cursor names an existing individual. |
| GedcomSweeps.Resolve | backend/gedcom_parser.py:95-99 | Resolution keeps the keys and their order. |
| Sweep1Properties.Sweep1Individual | backend/gedcom_parser.py:16-31 | An id is in the individuals exactly when some INDI header names it. Its record is a fresh record updated by the block of the last such header (last-wins). |
| Sweep1Properties.Sweep1Family | backend/gedcom_parser.py:16-38 | An id is in the families exactly when some FAM header names it. Its record is a fresh record updated by the block of the last such header. |
| Sweep1Properties.Sweep1Keys | backend/gedcom_parser.py:21-33 | Both dictionaries list each id once, in order of its first header. |
| Sweep1Properties.Sweep1Cursor | backend/gedcom_parser.py:16-18 | After any prefix, the cursor is the id and type of the prefix's last header, or unset before the first header. |
| Sweep1Properties.Sweep1StepCursor | backend/gedcom_parser.py:16-40 | A header moves the cursor to itself. Any other line, level-0 ones included, leaves the cursor where it was. |
| Sweep1Properties.Sweep1Preamble | backend/gedcom_parser.py:42-56 | Lines before the first header change nothing. |
| Sweep1Properties.Sweep1SkipsPreamble | backend/gedcom_parser.py:13-65 | Prepending header-free lines does not change the result of sweep 1. |
| Sweep1Properties.Run1Concat | backend/gedcom_parser.py:13-65 | Sweep 1 over two pieces equals sweep 1 over the second piece, started from the state the first left. |
| Sweep1Properties.LastAnyBlock | backend/gedcom_parser.py:16-40 | A header is the last one exactly when its block runs to the end of the file. |
| BlockProperties.FoldIndiName | backend/gedcom_parser.py:43-45 | `name_raw` is the text after `1 NAME ` on the last NAME line of the block, or unset without one. |
| BlockProperties.FoldIndiSplit | backend/gedcom_parser.py:46-49 | The first and last name come from the last NAME line whose value matches the pattern, stripped, with empty as `None`. A non-matching NAME line leaves them as they were. |
| BlockProperties.FoldIndiFamc | backend/gedcom_parser.py:51-54 | `family_as_child` is the stripped reference on the last FAMC line. |
| BlockProperties.FoldIndiKeeps | backend/gedcom_parser.py:42-54 | An INDI block never touches the id, the birth fields or the parents. |
| BlockProperties.FoldFamSpouses | backend/gedcom_parser.py:56-62 | The husband and wife are the stripped references on the last HUSB and WIFE lines, and the id is kept. |
| BlockProperties.FoldFamChildren | backend/gedcom_parser.py:63-65 | The children are the CHIL references in file order, repetitions kept. |
| BlockProperties.LastTagged | backend/gedcom_parser.py:43-63 | The position found starts with the tag and no later line does; when none is found, no line does. |
| BlockProperties.LastSplitIsLast | backend/gedcom_parser.py:46-49 | The same for NAME lines whose value matches the name pattern. |
| BlockProperties.TagsDiffer | backend/gedcom_parser.py:43-65 | No line starts with two of the tags the branches compare, so their order does not matter. |
| BlockProperties.IndiLineFields | backend/gedcom_parser.py:43-54 | A NAME line sets `name_raw` to the text after the tag, and sets both name parts as well when the value matches the pattern. A FAMC line sets the family link. Every other field, and every field on any other line, stays as it was. |
| Sweep2Properties.Sweep2Cursor | backend/gedcom_parser.py:68-86 | After any prefix, the cursor is the id of the last INDI header. The birth flag is set exactly when the last INDI header or level-1 line is a `1 BIRT` line and an INDI header came before it. |
| Sweep2Properties.Sweep2Birth | backend/gedcom_parser.py:88-92 | Sweep 2 keeps every key and every non-birth field. Each birth field is the stripped value of the last DATE (PLAC) line fed to that id inside an open block, or the value it had. |
| Sweep2Properties.LastFedIsLast | backend/gedcom_parser.py:88-92 | No line after the one `LastFed` finds feeds the field. |
| Sweep2Properties.Sweep2StepView | backend/gedcom_parser.py:70-92 | One line of the second loop, stated branch by branch for the cursor, the flag and one individual. |
| Sweep2Properties.BirthBlockCloses | backend/gedcom_parser.py:85-92 | A level-1 line that is not `1 BIRT` closes the block, so a DATE/PLAC line right after it changes nothing. |
| Sweep2Properties.FamHeaderIsSkipped | backend/gedcom_parser.py:73-92 | A FAM header leaves the whole sweep-2 state as it was. |
| Sweep2Properties.LevelZeroTags | backend/gedcom_parser.py:81-92 | A level-0 line carries none of the tags the second loop looks for. |
| Sweep2Properties.Sweep2Preamble | backend/gedcom_parser.py:78-79 | Before the first INDI header, FAM headers included, sweep 2 does nothing. |
| Sweep2Properties.Sweep2SkipsPreamble | backend/gedcom_parser.py:70-92 | Prepending lines without an INDI header does not change the result of sweep 2. |
| Sweep2Properties.Run2Concat | backend/gedcom_parser.py:70-92 | Sweep 2 over two pieces equals sweep 2 over the second piece, started from the state the first left. |
| GedcomProperties.ParseIndividual | backend/gedcom_parser.py:3-101 | An id is in the result exactly when an INDI header names it. Each of its nine fields has its value from the last block, the fed birth lines and the resolved family, the father and mother only when the link resolves. |
| GedcomProperties.ParseFamily | backend/gedcom_parser.py:3-101 | An id is in the families exactly when a FAM header names it. Its spouses and children come from the block of its last header. |
| GedcomProperties.ParseKeys | backend/gedcom_parser.py:21-33 | The returned dictionaries list ids in order of first header. |
| GedcomProperties.ParseSkipsPreamble | backend/gedcom_parser.py:3-101 | Lines before the first header make no difference to the result. |
| GedcomSyntax.HeaderOfShape | backend/gedcom_parser.py:14-18 | `0 @X@ INDI` and `0 @X@ FAM`, with a space-free token starting with `@`, are headers with id `X` stripped of `@`. |
| GedcomSyntax.HeaderHasShape | backend/gedcom_parser.py:14-18 | Conversely, every header has exactly that shape. |
| GedcomSyntax.HeaderStartsWithZero | backend/gedcom_parser.py:16 | Every header starts with `0 `. |
| GedcomSyntax.TagLineIsNoHeader | backend/gedcom_parser.py:16 | A line starting with a tag that does not start with `0` is no header. |
| GedcomSyntax.IndentedIsNoHeader | backend/gedcom_parser.py:14-16 | A line with a leading space is no header. |
| GedcomSyntax.TrailingSpaceIsNoHeader | backend/gedcom_parser.py:14-16 | A line with a trailing space is no header, because `parts[2]` must equal the type exactly. |
| GedcomSyntax.HeaderEndsWithTypeName | backend/gedcom_parser.py:16 | A header ends with the last letter of `INDI` or `FAM`. |
| GedcomSyntax.OrNoneStrip | backend/gedcom_parser.py:48-49 | `x.strip() or None` is `None` exactly when the value is whitespace only or empty, and otherwise a value that stripping again keeps. The same expression stores DATE and PLAC values (lines 90 and 92). |
| GedcomSyntax.NameMatchIff | backend/gedcom_parser.py:46-47 | The pattern matches exactly when some non-`/` text is followed by the first `/` and a non-`/` character. |
| GedcomSyntax.NameMatchGroups | backend/gedcom_parser.py:46-49 | The two groups are non-empty and slash-free, the value starts with `g1/g2`, and `g2` runs to the end or to the next `/`. |
| GedcomSyntax.NameMatchOf | backend/gedcom_parser.py:46-49 | `a/b` followed by nothing or by `/...` gives the groups `a` and `b`. |
| GedcomSyntax.NameMatchJeanDupont | backend/gedcom_parser.py:46-49 | `Jean /Dupont/` gives the groups `Jean ` and `Dupont`. |
| GedcomSyntax.StripJeanDupont | backend/gedcom_parser.py:48-49 | The stripped groups are `Jean` and `Dupont`. |
| GedcomSyntax.NameMatchNoSlashes | backend/gedcom_parser.py:46-47 | `NoSlashesHere` does not match, so both name parts stay unset. |
| PyStr.SplitSpace2 | backend/gedcom_parser.py:14 | `split(" ", 2)` gives one to three parts that rejoin with single spaces to the line. |
| PyStr.SplitSpace2Parts | backend/gedcom_parser.py:14 | Every part but the last is space-free, and so is the last when there are fewer than three. |
| PyStr.SplitSpace2Of | backend/gedcom_parser.py:14 | Space-free `a` and `b` joined with `c` by spaces split back into `[a, b, c]`. |
| PyStr.StripBySlice | backend/gedcom_parser.py:17 | `strip(chars)` is a slice whose cut prefix and suffix hold only cut characters, and whose ends are kept characters. |
| PyStr.StripEmptyIff | backend/gedcom_parser.py:48-49 | Stripping gives the empty string exactly when every character is cut. |
| PyStr.StripIdempotent | backend/duplicate_finder.py:7-9 | Stripping twice is stripping once. |
| PyStr.StripKeeps | backend/gedcom_parser.py:48 | A string with kept ends is its own strip. |
| PyStr.IndexOf | backend/gedcom_parser.py:46 | The first occurrence of a character, or none when it does not occur. |
| PyStr.After | backend/gedcom_parser.py:44 | `line[len(tag):]` rejoined to the tag is the line. |
| OrderedDict.Put | backend/gedcom_parser.py:21-38 | Assignment sets the entry. A new key is appended to the key order and an existing key keeps its place. |
| OrderedDict.ValuesHas | backend/duplicate_finder.py:6 | `values()` lists a value exactly when some key holds it. `Values` lists the values in key insertion order. |
| DuplicateFinder.FindDuplicates | backend/duplicate_finder.py:3-44 | The method returns exactly `Report(individuals)`. |
| DuplicateFinder.GroupRecords | backend/duplicate_finder.py:4-16 | The grouping loop returns the grouping of the tagged values. |
| DuplicateFinder.CollectPairs | backend/duplicate_finder.py:18-44 | The report loop concatenates the pairs of every group, in key order. |
| DuplicateFinder.GroupPairs | backend/duplicate_finder.py:21-42 | The nested `i < j` loops give `PairsOf(people)`. |
| DuplicateProperties.GroupKeys | backend/duplicate_finder.py:12-16 | A key has a group exactly when it is not blank and some record has it. |
| DuplicateProperties.GroupMembers | backend/duplicate_finder.py:15-16 | A group holds exactly the records with its key, in input order. |
| DuplicateProperties.GroupOrder | backend/duplicate_finder.py:15-20 | Groups come in order of the first record with their key. |
| DuplicateProperties.ReportSound | backend/duplicate_finder.py:20-42 | Every report entry is the candidate of two records at positions `p < q` with the same non-blank key. |
| DuplicateProperties.ReportComplete | backend/duplicate_finder.py:20-42 | Every two records at positions `p < q` with the same non-blank key appear as a report entry. |
| DuplicateProperties.ReportEntryFields | backend/duplicate_finder.py:27-42 | Each entry shows `a`'s id, names and birth date and both birth places, with unset fields as the empty string. `same_parents` holds exactly when the father is known and both parents agree. Both records have the same non-blank key, so a blank record never appears. |
| DuplicateProperties.NoMatchNoReport | backend/duplicate_finder.py:18-44 | Without two records sharing a non-blank key the report is empty. |
| DuplicateProperties.TwoMatchingOnePair | backend/duplicate_finder.py:18-44 | Exactly two records with the same non-blank key give a report of exactly one entry, the pair in input order. |
| DuplicateProperties.NoSelfPairs | backend/duplicate_finder.py:22-25 | When every record carries its own key as id, no entry pairs a record with itself. |
| DuplicateProperties.PairsCount | backend/duplicate_finder.py:22-25 | A group of `k` records yields `k(k-1)/2` pairs. |
| DuplicateProperties.PairPosition | backend/duplicate_finder.py:22-25 | The pair `(i, j)` sits at position `rows before i + (j - i - 1)`, which is upper-triangular order. |
| DuplicateProperties.ReportLength | backend/duplicate_finder.py:18-44 | The report length is the sum of `k(k-1)/2` over the groups. |
| DuplicateProperties.RowsPair | backend/duplicate_finder.py:22-25 | Every entry of the first `n` rows is the candidate of some `i < n`, `i < j`. |
| DuplicateProperties.RowsHavePair | backend/duplicate_finder.py:22-25 | Every such pair is among the first `n` rows. |
| PipelineProperties.ParsedIdsAreKeys | backend/gedcom_parser.py:21-22 | Every parsed record carries its own key as id. |
| PipelineProperties.ParsedKey | backend/duplicate_finder.py:7-9 | The grouping key of a parsed record is its first name, last name and birth date, lower-cased, with unset fields as the empty string. The parser stored them already stripped, so the finder's second `strip()` changes nothing. |
| PipelineProperties.ParsedReportHasNoSelfPairs | backend/duplicate_finder.py:22-25 | A report on parsed individuals never pairs a record with itself. |

## Left out

- Reading the file is not modelled. The upload endpoint, the byte decoding with its fallback and the FastAPI/HTTP layer are I/O. The model takes the decoded content as its input.
- `content.splitlines()` and the per-line `rstrip("\n\r")` are not modelled; the input is already a sequence of lines. After `splitlines` the `rstrip` changes nothing.
- PyStr.Lower: covers ASCII and the Latin-1 capitals only, not the full Unicode case mapping of `str.lower()`, because the Unicode tables are data rather than logic.
- GedcomSyntax.NameMatch: models only the pattern `([^/]+)/([^/]+)/?` with `re.match`; the general regular-expression engine is not modelled.
- Records are shared dict objects in the source. Sweep 3 changes `ind`, which is the same object as `individuals[ind_id]`, and the groups of `find_duplicates` hold the very record dicts of the input. The model treats records as values written back to their entry after each change. The result is the same, because each record is changed only through its own entry and no record is stored under two keys.
- `defaultdict(list)` is a `Dict` whose missing key reads as the empty list.
- The frontend (`frontend/js/app.js`) and the HTTP response serialization are not part of this model.
- The end-to-end example of two `Marie /Curie/` records is not proved on a concrete file: a literal file would have to be unfolded line by line through all three loops. Its parts are covered:
  - `ParseIndividual` for the parsed fields;
  - `ParsedKey` for the key they give;
  - `TwoMatchingOnePair` for the single report entry;
  - `ReportEntryFields` for `same_parents`, which is true only when the shared family has a husband.
