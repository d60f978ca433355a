# Diff application for Souffle fact directories, in Dafny

This project models the diff-application engine of `delta_debugging_base.py`.
The engine takes a folder of Souffle fact files (one tuple per line, fields
separated by tabs) and a change log of lines such as
`insert edge("5", "6")` and `remove edge("1", "2")`, terminated by a `commit`
line. It writes a new folder in which every touched fact file has lost the
removed tuples and gained the inserted ones, and every other fact file is a
plain copy.

The model is split into these modules:

- `Results` (`results.dfy`): the `Option` and `Result` datatypes.
- `PyStrings` (`py_strings.dfy`): the Python `str` operations the engine relies
  on, with Python's semantics: `isspace`, `rstrip`/`lstrip`/`strip`,
  `rstrip(')')`, `split(sep)`, `split(c, 1)`, `count`, `join`, and the source's
  `remove_suffix`.
- `TupleCodec` (`tuple_codec.dfy`): `printSouffleTuple`, `parseSouffleTuple`
  and the tab-joined key under which a tuple is stored in a fact file.
- `RelationMapper` (`relation_mapper.dfy`): `get_input_relation_names`, the
  loop that maps relations to their fact files. The regular expression is a
  `Matcher` parameter.
- `DiffReader` (`diff_reader.dfy`): the loop of `applyDiffToInput` that fills
  `toInsert` and `toDelete` up to the first `commit`. `DiffReaderExample`
  works one diff through.
- `Materializer` (`materializer.dfy`): the write phase of `applyDiffToInput`.
  It rewrites the touched files, copies the untouched fact files, and
  `ApplyDiffToInput` chains the whole function. `MaterializerExample` works
  one rewrite through.
- `Membership` (`membership.dfy`): `loadRelation` and `tuplesInRelation`, and
  how they see a rewritten file.

A folder is a `map` from file name to the file's lines. Each line keeps the
terminator it was read with. A loop that works by updating variables is a
`method`, and each method is proved equal to a specification function
(`ReadDiff` to `DiffChanges`, `BuildMapping` to `MappingOf`) or to a
characterising predicate (`Rewritten`, `MaterializedOver`, `CopiedOver`,
`Applied`). The source iterates over sets in an order it does not control:
`toInsert.keys() | toDelete.keys()`, `toInsert[rel]` and `os.listdir`. The
model picks each next element with `:|`, so every proof holds for every
order. `RewriteFile` returns the order it used as a ghost value.

Where the code and its intended design differ, the model follows the code:

- A command word other than `insert` or `remove` is accepted and ignored
  (lines 122-125). It is not an error. Its tuple is still parsed first, so a
  bad tuple after an unknown word still aborts.
- A referenced file that the input folder lacks gets no new output. Whatever
  the output folder already held under that name stays, because the output
  folder is created with `exist_ok=True` (line 127).
- Deletion compares `line.rstrip()` with the tab-joined key (line 138). The
  key of a tuple whose last field is empty ends in a tab, and `rstrip()`
  removes that tab. So a `remove` of such a tuple never removes its line.
  `TrailingEmptyFieldSurvives` proves this.

## Model

| member | source | states |
|---|---|---|
| PyStrings.RemoveSuffix | delta_debugging_base.py:48-53 | If the suffix is non-empty and ends `s`, the result followed by the suffix is `s`. Otherwise, including for the empty suffix, the result is `s`. |
| PyStrings.RemoveAppendedSuffix | delta_debugging_base.py:48-53 | Removing a non-empty suffix that was just appended gives back the original string. |
| PyStrings.RStripBy | delta_debugging_base.py:210 | `rstrip(chars)` returns a prefix of its input. The result does not end in a stripped character, and every removed character is one of them. |
| PyStrings.LStrip | delta_debugging_base.py:211 | `lstrip()` returns a suffix of its input that does not start with white space, and every removed character is white space. |
| PyStrings.StripNoEdgeSpace | delta_debugging_base.py:211 | A string with no white space at either end is its own `strip()`. |
| PyStrings.RStripNewline | delta_debugging_base.py:138 | `rstrip()` ignores a trailing line terminator. |
| PyStrings.JoinSplit | delta_debugging_base.py:211 | Joining the pieces of `split(sep)` with `sep` gives back the string. |
| PyStrings.SplitPiecesFree | delta_debugging_base.py:211 | No piece produced by `split(sep)` contains `sep`. |
| PyStrings.SplitJoin | delta_debugging_base.py:174 | Splitting the join of separator-free pieces gives back the pieces, for a separator whose first character does not recur in it (such as `", "` or a tab). |
| PyStrings.SplitCount | delta_debugging_base.py:211 | `split(sep)` yields one more piece than `count(sep)`. |
| PyStrings.JoinEmptyLast | delta_debugging_base.py:123 | A join whose last part is empty ends with the separator. |
| PyStrings.SplitOnce | delta_debugging_base.py:207-208 | `split(c, 1)` yields two parts exactly when `c` occurs. The parts are the text before the first `c` and the text after it. |
| PyStrings.SplitOnceAt | delta_debugging_base.py:108 | Splitting `a + c + b` once at `c`, where `a` has no `c`, yields `a` and `b`. |
| TupleCodec.PrintTuple | delta_debugging_base.py:200-203 | The printed tuple ends in `)`. When the name has no `(`, the text before its first `(` is the name and the rest is the quoted fields joined by `", "` and then `)`. |
| TupleCodec.ParseTuple | delta_debugging_base.py:205-215 | Parsing fails exactly when the string has no `(`. On success the name has no `(` and the string starts with the name followed by `(`, so the name is exactly the text before the first `(`. |
| TupleCodec.ParseFieldCount | delta_debugging_base.py:207-211 | After the trailing `)` are stripped, the number of fields is one more than the number of `", "` in the remainder. The fields come from separator-free pieces that join back into that remainder. |
| TupleCodec.QuoteFree | delta_debugging_base.py:201 | Quoting a field that has no `", "` adds none. |
| TupleCodec.UnquoteQuote | delta_debugging_base.py:212 | A quoted field with no edge white space decodes back to the field. |
| TupleCodec.JoinLast | delta_debugging_base.py:202 | A join ends with the last character of its last part when that part is non-empty. |
| TupleCodec.ParsePrintRoundTrip | delta_debugging_base.py:200-212 | `parseSouffleTuple(printSouffleTuple(n, t)) == (n, t)` when `n` has no `(`, `t` has at least one field, and no field contains `", "` or has white space at either end. |
| TupleCodec.TabRoundTrip | delta_debugging_base.py:174 | A tuple with at least one field and no tab in any field survives tab-joining followed by `split('\t')`. |
| TupleCodec.TabSplitInjective | delta_debugging_base.py:174 | Two lines with the same `split('\t')` are the same line. |
| RelationMapper.BuildMapping | delta_debugging_base.py:58-75 | The loop's two dictionaries equal the fold `MappingOf` over the declaration lines. |
| RelationMapper.MappingKeys | delta_debugging_base.py:66-73 | A relation (a file) is a key exactly when some line matches with that relation (that file). Lines that do not match add nothing. |
| RelationMapper.LastMatchWins | delta_debugging_base.py:72-73 | Later matches overwrite earlier ones. The last line that matches a relation decides its file, and the last line that matches a file decides its relation. |
| RelationMapper.EntriesFromLines | delta_debugging_base.py:66-73 | Every entry in either dictionary comes, as a pair, from one matching line. |
| RelationMapper.MappingsInverse | delta_debugging_base.py:72-73 | When every relation is declared with a single file and every file with a single relation, the two dictionaries are inverses of each other. |
| DiffReader.ResolvedFile | delta_debugging_base.py:111-115 | A relation with a declared file resolves to that file. Any other relation resolves to a name that ends in `.facts` and gives the relation back under `remove_suffix`. |
| DiffReader.DecodeLine | delta_debugging_base.py:108-125 | A line fails exactly when it has no space (`MalformedDiffLine`) or the text after its first space has no `(` (`MalformedTuple` of that text). Otherwise the entry holds the command of the first word, the file the relation resolves to, and the tab-joined fields. |
| DiffReader.DecodePrintedLine | delta_debugging_base.py:108-125 | A line `word + " " + printSouffleTuple(n, t)` decodes to the word's command, the relation's declared file (or `n + ".facts"`), and the tab-joined fields. |
| DiffReader.ReadDiff | delta_debugging_base.py:102-125 | The loop computes `DiffChanges`: the two dictionaries as read up to the first `commit`, or the first error. |
| DiffReader.CommitEndsDiff | delta_debugging_base.py:102-106 | The first line whose `rstrip()` is `commit` ends the diff. That line and all later ones, malformed or not, change nothing. |
| DiffReader.ReadFails | delta_debugging_base.py:102-109 | Reading lines before `commit` fails exactly when one of them fails to decode. |
| DiffReader.RecordContents | delta_debugging_base.py:122-125 | Recording a `remove` adds its key to that file's delete set only. An `insert` adds to the insert set only, and any other command changes nothing. |
| DiffReader.ReadRouting | delta_debugging_base.py:111-125 | After a successful read, a key is in a file's insert (delete) set exactly when some line before `commit` is an `insert` (`remove`) for that file and key. No file ever maps to an empty set. |
| DiffReader.TouchedFiles | delta_debugging_base.py:130 | A file is a key of `toInsert` or of `toDelete` exactly when some line before `commit` inserts into it or removes from it. |
| DiffReaderExample.CommitExample | delta_debugging_base.py:102-125 | A `remove` and an `insert` before `commit` land in the delete and insert sets of `name.facts`, and the line after `commit` is ignored whatever it holds. |
| DiffReaderExample.EdgeDiff | delta_debugging_base.py:102-125 | The diff `remove edge("1", "2")`, `insert edge("5", "6")`, `commit` deletes `1\t2` from and inserts `5\t6` into `edge.facts`. |
| Materializer.KeptLinesAppend | delta_debugging_base.py:137-140 | The filter on input lines distributes over concatenation, so kept lines keep their original order. |
| Materializer.KeptLinesCount | delta_debugging_base.py:137-140 | A line is kept as often as it occurs unless its `rstrip()` is a key to delete, in which case it is dropped. |
| Materializer.TerminatedCount | delta_debugging_base.py:142-143 | Each appended line is a key followed by a newline, once per occurrence of the key. |
| Materializer.RewriteFile | delta_debugging_base.py:137-143 | The output is the kept input lines in their original order, followed by every key of the insert set exactly once, each followed by a newline. |
| Materializer.RewrittenCount | delta_debugging_base.py:137-143 | A line occurs in the output as often as it occurs in the input unless its key is deleted, plus once if it is an inserted key followed by a newline. |
| Materializer.RewrittenCounts | delta_debugging_base.py:137-143 | The same count, for every line at once. |
| Materializer.InsertedPresent | delta_debugging_base.py:142-143 | Every key to insert is in the output as a line of its own. |
| Materializer.DeletedUnlessInserted | delta_debugging_base.py:137-143 | A line whose key is to be deleted survives only as a freshly inserted line. |
| Materializer.MaterializeStep | delta_debugging_base.py:130-143 | Handling one more touched file keeps the state of the loop: touched files present in the input are rewritten, and every other name is left as it was. |
| Materializer.Materialize | delta_debugging_base.py:130-143 | Every touched file present in the input is rewritten into the output folder. A touched file missing from the input gets nothing new. Every other name keeps its prior content. |
| Materializer.CopyStep | delta_debugging_base.py:147-154 | Considering one more input file keeps the state of the copy loop. |
| Materializer.CopyUntouched | delta_debugging_base.py:147-154 | Exactly the input files ending in `.facts` or `.txt` that the diff does not touch are copied unchanged. Every other name keeps its prior content. |
| Materializer.ApplyDiffToInput | delta_debugging_base.py:78-157 | The function fails exactly when the diff fails to read, with the same error, before writing anything. On success the output folder is `Applied`: touched input files are rewritten, never copied; untouched fact files are copied unchanged; files with other suffixes and missing referenced files add nothing; and all other names keep their prior content. |
| MaterializerExample.EdgeExample | delta_debugging_base.py:137-143 | Removing `1\t2` from and inserting `5\t6` into a file holding `1\t2` and `3\t4` leaves exactly `3\t4` followed by `5\t6`. |
| Membership.TuplesInRelation | delta_debugging_base.py:166-183 | The result is true exactly when every candidate equals the `split('\t')` of some right-stripped line. It is true for an empty candidate set. The loop invariant keeps `found` a subset of the candidates. |
| Membership.LoadRelation | delta_debugging_base.py:160-163 | Every loaded tuple joins to a non-empty line, so the one-empty-field tuple of a blank line is never loaded. `BlankLineIgnored`, `LoadLine`, `InsertedLoaded` and `ReadersAgree` pin down the rest. |
| Membership.BlankLineIgnored | delta_debugging_base.py:161 | Appending a line that strips to nothing does not change what `loadRelation` returns. |
| Membership.SeenLine | delta_debugging_base.py:171-174 | For a `Seen` tuple, the written line right-strips to its key, and the key splits back to the tuple. `Seen` means at least one field, no tab in any field, and a last field that is non-empty and does not end in white space. |
| Membership.LoadLine | delta_debugging_base.py:161-162 | For a `Loadable` tuple, the written line strips to its key, and the key is not blank. `Loadable` means `Seen` plus a first field that is non-empty and does not start with white space. |
| Membership.InsertedSeen | delta_debugging_base.py:171-174 | After a rewrite, every inserted `Seen` tuple is seen by `tuplesInRelation`. |
| Membership.InsertedLoaded | delta_debugging_base.py:160-163 | After a rewrite, every inserted `Loadable` tuple is returned by `loadRelation`. |
| Membership.DeletedNotObserved | delta_debugging_base.py:171-177 | After a rewrite, a deleted tuple is not seen by `tuplesInRelation`, unless some inserted key right-strips to the same text. |
| Membership.ReadersAgree | delta_debugging_base.py:160-177 | On a file whose lines are non-blank and have no leading white space, `loadRelation` and `tuplesInRelation` see the same tuples. |
| Membership.TrailingEmptyFieldSurvives | delta_debugging_base.py:138 | The line of a tuple with an empty last field survives a `remove` of that tuple. |

## Left out

- Logging, the timer registry and `logTime` (lines 20-46) and the `time.time()` calls: instrumentation over wall-clock floats.
- `initSouffle` (lines 188-198): it runs an external program.
- The file system is modelled as values. Folders are maps, `os.path.exists` is map membership, `open` is a list of lines, and `os.makedirs` is the prior content of the output folder passed in. The path of the declaration file is replaced by its lines.
- When the input and output folders are the same directory, the source truncates a touched file before reading it. The model keeps the two folders separate, so it does not capture this aliasing.
- A last line without a terminator: each line is modelled as one element, so a kept last line without `\n` followed by appended lines is not merged with the first appended line as it would be on disk.
- The regular expression of line 63 is the `Matcher` parameter. Its own semantics are not verified.
- I/O errors, and exceptions other than the two decoding failures, are not modelled.
- Duplicates in the candidate list of `tuplesInRelation`: the model takes the set that line 168 builds from it.
