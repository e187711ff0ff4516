# code_finder in Dafny

`code_finder.py` is a small command-line tool. It searches a directory tree of
XML documents for `ContractCode` elements whose text equals one of a list of
target codes. Every match becomes one line of a results file:
`Файл: <path>, ContractCode найден: <code>`.

This project models that script and proves properties of the model. It covers:

- loading the codes file into a set of stripped, non-blank codes;
- selecting the files whose name ends in `.xml`, in any case;
- deriving the namespace from the root tag;
- finding the `ContractCode` elements in that namespace, the way ElementTree's `findall('.//ns:ContractCode', …)` does;
- writing one line per match;
- the per-file error handling;
- `main`, which truncates the results file and then runs one full scan of the tree per target code.

The project has these modules:

- `PyStrings` (`strings.dfy`) holds the Python string operations the script relies on:
  - `str.strip()` over Python's whitespace set, and `str.strip(chars)`;
  - the part before the first separator, which is `split(sep)[0]`;
  - ASCII lower-casing and `endswith`.
- `CodeLoader` (`codes.dfy`) is `load_target_codes`. The codes file is given as its lines; `None` stands for a missing file.
- `Xml` (`xml.dfy`) holds:
  - a parsed element tree: tag, optional text and children;
  - document-order iteration;
  - the namespace a root tag yields;
  - `findall` for the descendant path `.//ns:ContractCode`. An empty namespace selects un-namespaced tags, and the namespace `*` selects any namespace; both follow ElementTree's path rules (Python 3.8 and later).
- `Scanner` (`scanner.dfy`) gives what one scan and what a whole run write, as functions:
  - the directory walk is a sequence of entries: directory, file name, and what parsing the file gives;
  - the iteration order of the code set is an enumeration `order` of the set.
- `Report` (`report.dfy`) holds the imperative part:
  - the results file as a class with a ghost log of its writes;
  - the loops of `process_xml_files_recursively` and `main` as methods, each proved equal to the `Scanner` functions.
- `Scenarios` (`scenarios.dfy`) is a worked document and walk. In it, a nested and a top-level `ContractCode` are both found, a broken file is skipped, and a backup copy `<stem>.xml.bak` is not read.
- `Seqs` (`seqs.dfy`) and `Wrappers` (`wrappers.dfy`) are generic sequence facts and `Option`.

### Behaviour of the program that the model keeps

- Two runs give the same lines only up to the order of the per-code blocks, because `main` iterates over a `set` of strings, whose order changes with string-hash randomisation. The model leaves the order open (an enumeration chosen by the method). `RunContentIndependentOfOrder` proves that every order gives the same lines with the same multiplicities.
- An element without text (`text` is `None`) makes `code_element.text.strip()` raise. The block that catches this is around the whole file, so two things follow:
  - the lines already written for earlier elements of that file stay in the results file;
  - the rest of that file is skipped.
  An empty `ContractCode` element (`<ContractCode/>` or `<ContractCode></ContractCode>`) is this case too: ElementTree gives it `text` None, so it ends the file. Only an element whose text is whitespace is harmless: it strips to `""`, which never equals a loaded code.
- A root tag without a namespace yields the tag itself as the namespace (`"Root".split('}')[0]` is `"Root"`). Only elements tagged `{Root}ContractCode` are then found. The model keeps this (`Xml.Namespace`).
- An empty list of codes does not stop the run before the results file is emptied. The truncation has already happened, so the results file is left empty.

## Model

| member | source | states |
|---|---|---|
| PyStrings.LeadingRun | code_finder.py:15 | the run `strip` removes at the front: all its characters are in the set, and the next character is not |
| PyStrings.TrailingRun | code_finder.py:15 | the run `strip` removes at the back: all its characters are in the set, and the character before it is not |
| PyStrings.StripChars | code_finder.py:41-42 | `s.strip(chars)` neither starts nor ends with a character of `chars` and is no longer than `s` |
| PyStrings.Strip | code_finder.py:48 | `s.strip()` neither starts nor ends with a Python whitespace character |
| PyStrings.StripCharsIsPadded | code_finder.py:15 | the input is the stripped result with runs of stripped characters before and after it |
| PyStrings.StripCharsOfPadded | code_finder.py:15 | stripping undoes padding: removing padding runs from an unpadded string gives it back |
| PyStrings.StripCharsIdempotent | code_finder.py:15 | a second strip changes nothing, so the loader's filter and its value agree |
| PyStrings.BeforeFirst | code_finder.py:41 | `split(sep)[0]` is the prefix before the first `sep`, holds no `sep`, and is followed by `sep` or by the end |
| PyStrings.Lower | code_finder.py:33 | lower-casing keeps the length |
| PyStrings.LowerAt | code_finder.py:33 | lower-casing works character by character |
| PyStrings.EndsWith | code_finder.py:33 | `s.endswith(suffix)`: the last characters of `s` are exactly `suffix` |
| CodeLoader.LoadTargetCodes | code_finder.py:13-18 | a missing file gives the empty set; every code is non-empty and trimmed; every non-blank line's stripped form is a code; every code comes from a line |
| CodeLoader.TrimmedCodeIsStripped | code_finder.py:15 | a loaded code is its own `strip()`, so it is compared with stripped element text on equal terms |
| CodeLoader.LoadConcat | code_finder.py:15 | the codes of two runs of lines are the union of the codes of each |
| CodeLoader.LoadBlankLine | code_finder.py:15 | a blank or whitespace-only line gives no code |
| CodeLoader.LoadCodeLine | code_finder.py:15 | a non-blank line gives exactly its stripped form |
| CodeLoader.BlankLineIgnored | code_finder.py:15 | inserting a blank line anywhere leaves the set of codes unchanged |
| CodeLoader.DuplicateLineCollapses | code_finder.py:15 | a line whose stripped form repeats an earlier one adds no code |
| CodeLoader.LoadCardinality | code_finder.py:15 | there are no more codes than lines |
| Xml.Iter | code_finder.py:45-46 | document-order iteration starts with the element itself |
| Xml.RootNotDescendant | code_finder.py:45-46 | the root is not among its own descendants, so `.//` never selects it |
| Xml.Namespace | code_finder.py:41-42 | the namespace derived from a root tag contains no `}` and neither starts nor ends with `{` |
| Xml.BeforeFirstOfJoined | code_finder.py:41 | the part before the first separator of `a + sep + b`, where `a` holds no separator, is `a` |
| Xml.NamespaceOfQualifiedTag | code_finder.py:41-42 | a root tag `{ns}local` yields exactly `ns`, when `ns` holds no braces at its edges or a `}` |
| Xml.Selects | code_finder.py:45-46 | the tag rule of `.//ns:ContractCode`: namespace `""` selects the plain tag `ContractCode`, namespace `*` selects `ContractCode` in any namespace or none, and any other namespace selects exactly `{ns}ContractCode`; every selected tag ends in `ContractCode` |
| Xml.Matching | code_finder.py:45-46 | filtering by tag keeps no more elements than it is given |
| Xml.MatchingMembers | code_finder.py:45-46 | filtering keeps exactly the given elements whose tag is selected |
| Xml.MatchingConcat | code_finder.py:45-46 | filtering keeps document order: it distributes over concatenation |
| Xml.FindAll | code_finder.py:45-46 | `root.findall('.//ns:ContractCode', namespace)`: the proper descendants of the root, in document order, whose tag is selected; everything found is a descendant with a selected tag |
| Xml.FindAllMembers | code_finder.py:45-46 | `findall('.//ns:ContractCode')` finds exactly the proper descendants whose tag is selected, never the root |
| Xml.FindAllLeaf | code_finder.py:45-46 | an element without children finds nothing |
| Xml.FindAllFirstChild | code_finder.py:45-46 | a first child and its subtree come before the later children in the found list |
| Scanner.Join | code_finder.py:34 | `os.path.join(root_dir, filename)`: an absolute name replaces the directory, otherwise the two are joined with one `/`; the path ends with the file name, and a relative name keeps the directory in front |
| Scanner.IsXmlName | code_finder.py:33 | the file selection test `filename.lower().endswith(".xml")` |
| Scanner.XmlNameByCharacters | code_finder.py:33 | a name is selected exactly when its last four characters are `.`, then `x`, `m`, `l` in either case |
| Scanner.XmlNameExamples | code_finder.py:33 | whatever the stem, `<stem>.XML` and `<stem>.Xml` are selected and `<stem>.xml.bak` and `xml` are not |
| Scanner.ReportLine | code_finder.py:51-52 | the text written for one match: `Файл: `, the path, `, ContractCode найден: `, the code and a newline |
| Scanner.ReportLineNamesPath | code_finder.py:51-52 | a report line names its file unambiguously: for one code, different paths give different lines |
| Scanner.MatchLines | code_finder.py:47-53 | a file writes at most one line per candidate |
| Scanner.MatchLinesForm | code_finder.py:49-53 | every line a file writes is the report line for that file and the target code |
| Scanner.MatchLinesConcat | code_finder.py:47-53 | candidates that all have text write their lines, and the later candidates then write theirs after them |
| Scanner.MatchLinesStopAtMissingText | code_finder.py:48 | a candidate without text ends the file: earlier lines stay, nothing after it is written |
| Scanner.MatchLinesSingle | code_finder.py:48-53 | one candidate with text writes one line exactly when its stripped text is the target |
| Scanner.MatchLinesCount | code_finder.py:47-53 | when all candidates have text, the number of lines is the number of matching candidates |
| Scanner.MatchLinesStepText | code_finder.py:47-53 | one loop step over a candidate with text adds exactly that candidate's lines to the file's lines so far |
| Scanner.MatchLinesLoopExit | code_finder.py:47-48 | the loop over a file's candidates ends after the last one or at the first without text, and the file's lines are those written up to there |
| Scanner.FileLines | code_finder.py:35-60 | the lines one selected file writes: none when parsing raises a parse error or another error, otherwise `MatchLines` of the candidates `findall` gives under the root's namespace |
| Scanner.EntryLines | code_finder.py:33-60 | the lines one file of the walk writes: `FileLines` of its joined path when its name is selected, none otherwise |
| Scanner.Scan | code_finder.py:31-60 | the lines one call of `process_xml_files_recursively` appends: the `EntryLines` of every file of the walk, in walk order |
| Scanner.EntryLinesForm | code_finder.py:33-53 | a file's lines all name that file, which is selected and parsed, and the target |
| Scanner.ScanLinesOrigin | code_finder.py:31-53 | every line of a scan names the target and some selected, parsed file of the walk |
| Scanner.ScanSingle | code_finder.py:31-34 | a walk of one file writes that file's lines |
| Scanner.ScanConcat | code_finder.py:31-32 | the walk is scanned in order: the lines of two parts of a walk follow each other |
| Scanner.ScanStep | code_finder.py:31-32 | one more file of the walk appends its lines |
| Scanner.ScanThree | code_finder.py:31-32 | a walk of three files writes each file's lines in walk order |
| Scanner.ScanAroundEntry | code_finder.py:31-60 | a file's lines sit between the lines of the files before it and those of the files after it |
| Scanner.SkippedEntryContributesNothing | code_finder.py:33-57 | a file that is not selected, or does not parse, changes nothing in the scan |
| Scanner.MissingTextEndsOnlyThatFile | code_finder.py:47-60 | a candidate without text cuts its own file short, and the files after it are still scanned |
| Scanner.RunLines | code_finder.py:88-90 | the lines the loop over the codes appends: one full `Scan` of the walk per code, in the order the loop takes the codes |
| Scanner.RunSingle | code_finder.py:89-90 | a run with one code is one scan for it |
| Scanner.RunConcat | code_finder.py:89-90 | the scans for successive codes follow each other in the report |
| Scanner.RunSnoc | code_finder.py:89-90 | one more code appends one more full scan |
| Scanner.RunGroupsByCode | code_finder.py:89-90 | the report is a block per code: the code's full scan sits between the scans for the codes before and after it |
| Scanner.EnumerationSize | code_finder.py:89 | the loop over the set runs once per code |
| Scanner.EnumeratesNone | code_finder.py:88-93 | an empty set of codes runs no scan and writes nothing |
| Scanner.EnumeratesStep | code_finder.py:89 | choosing one of the remaining codes extends the partial enumeration by that code |
| Scanner.EnumeratesTail | code_finder.py:89 | after the first code, the rest of an enumeration enumerates the rest of the set |
| Scanner.EnumeratesWithout | code_finder.py:89 | removing one code from an enumeration enumerates the set without it |
| Scanner.RunContentIndependentOfOrder | code_finder.py:88-90 | any two iteration orders of the code set write the same lines with the same multiplicities |
| Report.Appends | code_finder.py:53 | writing lines makes one write per line |
| Report.AppendsAt | code_finder.py:53 | the `i`-th write appends the `i`-th line |
| Report.AppendsConcat | code_finder.py:53 | writing two runs of lines is writing one, then the other |
| Report.Replay | code_finder.py:30-77 | what the results file holds after a sequence of writes: opening with mode `'w'` (line 77) empties it, a write on the file opened with mode `'a'` (line 30) adds a line at its end |
| Report.ReplayAppends | code_finder.py:30 | appending never overwrites: the file keeps its lines and gains new ones at its end |
| Report.ReplayAfterTruncate | code_finder.py:77 | after a truncation and appends the file holds exactly the appended lines, whatever it held before |
| Report.TruncatedOnlyFirst | code_finder.py:77 | in a run's writes the truncation is the first write and the only one |
| Report.ReportFile.constructor | code_finder.py:77 | a results file holding whatever an earlier run left, with no writes yet |
| Report.ReportFile.Truncate | code_finder.py:77 | opening with mode `'w'` empties the file and logs a truncation |
| Report.ReportFile.Write | code_finder.py:53 | a write appends the line at the end and logs it |
| Report.ScanCandidate | code_finder.py:48-53 | one candidate with text appends the line it calls for, if any, and logs it as an append |
| Report.CandidateStep | code_finder.py:47-53 | after one more candidate with text, the file and its log hold the lines of that many candidates |
| Report.ScanCandidates | code_finder.py:47-53 | the loop over one file's candidates appends exactly that file's lines, stopping at a candidate without text, and logs them as appends |
| Report.ScanFile | code_finder.py:35-60 | one selected file appends its lines: none when it does not parse, otherwise the matches among the root namespace's `ContractCode` elements |
| Report.ScanEntry | code_finder.py:33-60 | one file of the walk appends its lines; a file whose name is not selected is not read and appends nothing |
| Report.EntryStep | code_finder.py:31-32 | after one more file of the walk, the results file and its log hold the lines of that many files |
| Report.ProcessXmlFilesRecursively | code_finder.py:21-60 | one pass appends the scan of the walk for the code, file after file, and only appends |
| Report.CodeStep | code_finder.py:89-90 | after one more code, the results file and its log hold one more full scan |
| Report.ScanAllCodes | code_finder.py:88-90 | the loop over the set runs once per code in some enumeration `order` of it, and appends the scans in that order |
| Report.Run | code_finder.py:76-93 | the results file ends up holding exactly the run's lines for an enumeration of the loaded codes; it is empty when the codes file is missing or holds no code; the only writes are one truncation, then appends |
| Scenarios.DocCandidates | code_finder.py:41-46 | in the worked document, the namespace is read back from the root and both `ContractCode` elements are found, the nested one first |
| Scenarios.DocLines | code_finder.py:41-53 | the worked document writes a line for each of its two elements whose stripped text is the target, in document order |
| Scenarios.ShapedWalkLines | code_finder.py:31-60 | for any document, in a walk of `<stem>.XML`, a broken file and `<stem>.xml.bak`, only the `<stem>.XML` file writes |
| Scenarios.WalkLines | code_finder.py:31-60 | in the worked walk only the selected, parsed document writes, and a code neither element holds writes nothing |

## Left out

- Directory traversal: `os.walk` is not modelled. Its output is an input: the sequence of files it yields, flattened from its `(root_dir, files)` pairs, in the order it yields them. This is also why the tree is assumed not to change between the per-code passes.
- XML parsing: `ET.parse` is an abstract outcome per file: a parse error, some other error, or a tree.
  - I/O and decoding failures are folded into the "other error" outcome.
  - Attributes, tails and comments of elements are not modelled, because the script reads only tags and text.
- Console output: the messages that `print` writes are not modelled (lines 17, 54, 57, 59-60, 81-82, 91, 93). They never reach the results file.
- Script location: locating the script's directory is not modelled (lines 66-74, including the frozen-executable case). The walk and the codes file are parameters of `Report.Run`.
- Scanner.Join, Scanner.ReportLine: POSIX behaviour only. `os.path.join` follows the POSIX rules for two parts, and the line ends in `"\n"`; on Windows, text mode writes `os.linesep` (`"\r\n"`) instead.
- PyStrings.Lower: lowers ASCII letters only, not the full Unicode mapping of `str.lower`. For the `.xml` test this makes no difference, because no other character lower-cases to a string containing `.`, `x`, `m` or `l`.
- Codes file:
  - `Report.Run` models `os.path.exists` being false and `load_target_codes` catching `FileNotFoundError` as one case, `None`. Both leave the results file empty.
  - A codes file that is not valid UTF-8, or that is a directory, raises out of `main`. This is not modelled.
- Failing writes to the results file: the model treats every write as succeeding.
  - The write at line 53 sits inside the per-file `try` (lines 35-60). An exception it raises is caught at line 58 and ends only that file, like a missing text, and the walk goes on. Examples are a `UnicodeEncodeError` for a path holding a lone surrogate, or an `OSError` from a failed flush. The model does not cover this case.
  - Only the opens at lines 30 and 77, and the flush when the `with` of line 30 closes, raise out of the script. These are not modelled either.
- Report.ReportFile: `log` is ghost bookkeeping of the writes; the script keeps no such record.
- Scenarios.WalkLines and Scenarios.DocLines: the element texts, the namespace and the file-name stem are parameters, not literal strings.
