# exp-run core, modelled in Dafny

This project models the text-processing core of `exp-run`. `exp-run` is a
set of command-line tools around discrete probabilistic graphical models:

- `convert` turns a latent-tree BIF file into factors and a clique tree. It
  also rewrites networks and data files between formats: BIF, XMLBIF, UAI,
  factor graph (FG), MAR, solver evidence and ARFF.
- `qevgen` draws query and evidence lines.
- `inference` merges those lines, calls an outside solver and writes the
  probabilities.
- `sample` asks an outside Gibbs sampler for data sets and writes the header
  files.
- `pmlearn` reads a parent list and builds a network with zero potentials.
- `calcdist` compares two inference results with a named distance.

Every operation is a pure function over token or line sequences. The only
exception is the clique-tree builder, which is a method with a worklist loop.
Files become `seq<string>` of lines or tokens. Outside programs, number
formatting and parsers that are not part of this model become function
parameters.

Modules, one per file:

- `Results`, `Text`, `Runs`, `Stats`, `Printed`: option and result types,
  string helpers, and `strconv.Itoa`/`Atoi` as total functions with a round
  trip.
- `Registry`: the variable list as the commands use it (`FindByName`,
  `FindByID`, `Add`, `maxID`).
- `MixedRadix`: the ordered index of the variable library, as a mixed-radix
  bijection between flat offsets and joint assignments.
  - The digit order is the parameter `Convention`, either `FirstFastest` or
    `LastFastest`.
- `LtmTables`, `LtmParser`: `parseLTMbif`.
- `CliqueTree`: `buildCTree`, `getRoot` and `getMaxIntersec`.
- One module per conversion or command:
  - `Conversions`: the `convert` dispatch;
  - `Headers`: `parseHeader`, `writeHeaders` and the ARFF header;
  - `Evidence`: `writeEvToEvid` and `mergeQev`;
  - `UaiFormat`, `FgFormat`, `MarFormat`, `XmlBif`: the format writers;
  - `QueryGen`: `qevgen`;
  - `Inference`, `Sampling`, `PmLearn`, `CalcDist`: the other commands.

Most writers are paired with a reader written here. The reader is the
format's inverse, and a round-trip lemma proves that it gets back what was
written. The XMLBIF writer and the probability file of `inference` have no
reader here: their lemmas state the layout instead (one row per assignment,
chunks that cover the table, an average that lies within the probabilities).

Decisions the code leaves open, and what the model does about them:

- **Table storage order.** How a factor's table is laid out belongs to the
  variable library, which is not part of this model. The expected vector in
  `cmd/pmlearn/pmlearn_test.go` points to the first listed variable varying
  fastest, so the storage order is the parameter `Convention`, and every
  theorem holds for both values.
- **The index walk.** The ordered index's `NextRight` is taken to step the
  last listed variable fastest, the order in which UAI lists a table. It is one
  definition, `MixedRadix.NextRightWalk`, used both by the UAI writer
  (`cmd/convert/convert.go:426-430`) and by the latent-tree reader
  (`cmd/convert/convert.go:244-248`).
- **Unattached factors.** `buildCTree` silently drops a factor that the
  overlap heuristic cannot attach. `CliqueTree.BuildTree` does the same and
  returns the dropped factors beside the tree.
- **Second parent.** The latent-tree reader takes the one name after `|` and
  skips everything else up to `table`. The model does the same.

## Model

| member | source | states |
|---|---|---|
| Conversions.ConvTypes | cmd/convert/convert.go:24-38 | eight conversions, with pairwise distinct names |
| Conversions.Listed | cmd/convert/convert.go:36-38 | every conversion is in the list `ConvTypes` returns |
| Conversions.Lookup | cmd/convert/convert.go:69-98 | a name selects the conversion of that name; no conversion exactly when no conversion carries the name |
| Conversions.LookupName | cmd/convert/convert.go:69-98 | each conversion is selected by its own name and by no other |
| Conversions.Dispatch | cmd/convert/convert.go:54-99 | the selected conversion has the given name; without `-h` there are no variables, with it they are what `parseHeader` reads; `csv2arff` is only run with variables |
| Conversions.DispatchOutcome | cmd/convert/convert.go:54-99 | dispatch succeeds iff no argument is missing, the header parses, the name is listed and `csv2arff` has variables; a header error is reported before an unknown name |
| Headers.CardOf | cmd/convert/convert.go:115 | a cardinality field reads iff it is a non-negative decimal, and it is that number (a negative count: see Left out) |
| Headers.CardsOf | cmd/convert/convert.go:119-121 | one cardinality per column, each read from its field; succeeds when every field reads |
| Headers.HeaderVars | cmd/convert/convert.go:113-122 | one variable per column |
| Headers.AddAllAppends | cmd/convert/convert.go:114-121 | adding variables of ascending ids one by one to an empty list keeps them in that order |
| Headers.HeaderVarsAscending | cmd/convert/convert.go:113-122 | the header's variables have ascending ids, so the `vs.Add` loop yields exactly them |
| Headers.ParseHeaderOutcome | cmd/convert/convert.go:102-126 | empty lines are skipped; one line gives unnamed variables 0..n-1 with its cardinalities; two or more give the first line's names with the second line's cardinalities; no line gives no variable |
| Headers.WriteHeaders | cmd/sample/sample.go:76-90 | one `.schema` line and two `.hdr` lines |
| Headers.CardTexts | cmd/sample/sample.go:77-79 | one cardinality text per variable |
| Headers.Names | cmd/sample/sample.go:77-80 | one name per variable |
| Headers.MaxTexts | cmd/sample/sample.go:77-81 | one largest-state text per variable |
| Headers.OneLineHeader | cmd/convert/convert.go:113-116 | a single line of readable cardinalities gives variables 0..n-1 with those cardinalities |
| Headers.SchemaRoundTrip | cmd/sample/sample.go:83-85 | reading the `.schema` file back with `parseHeader` gives unnamed variables 0..n-1 with the written cardinalities |
| Headers.HdrRoundTrip | cmd/sample/sample.go:86-89 | reading the `.hdr` file back gives the variables' names with their largest state plus one as cardinality |
| Headers.StateList | cmd/convert/convert.go:482-485 | the state labels of a variable, one per state |
| Headers.ArffHeader | cmd/convert/convert.go:480-489 | `@relation data`, one attribute line per variable in order, then `@data` |
| Headers.CsvToArff | cmd/convert/convert.go:479-496 | the CSV text is copied unchanged after the header |
| Headers.StatesRoundTrip | cmd/convert/convert.go:482-487 | the written state list `0,1,...,n-1` reads back as n |
| Headers.AttributeRoundTrip | cmd/convert/convert.go:486-487 | an attribute line reads back as the variable's name and number of states |
| Registry.FindByName | cmd/convert/convert.go:198-199 | a found variable is listed and carries the name |
| Registry.FindByNameNone | cmd/convert/convert.go:198-199 | the search fails iff no listed variable carries the name |
| Registry.FindById | cmd/pmlearn/pmlearn.go:70 | a found variable is listed and carries the id; the search fails iff no listed variable carries it |
| Registry.MaxIdIsMaximum | cmd/convert/convert.go:175-180 | in an ascending list, the last id (or -1) bounds every id |
| Registry.InsertByIdContents | cmd/convert/convert.go:208 | insertion adds exactly the one variable |
| Registry.InsertKeepsAscending | cmd/convert/convert.go:208 | insertion keeps the list in ascending id order |
| Registry.AddVar | cmd/convert/convert.go:208 | an id already listed leaves the list alone; otherwise the list grows by one; ascending order is kept |
| Registry.AddVarContents | cmd/convert/convert.go:208 | every old variable stays, the only new one is the added one, and its id is then listed |
| Registry.AddFreshAppends | cmd/convert/convert.go:208-209 | a variable above every listed id is appended and becomes the largest id |
| Registry.AddToSingleton | cmd/convert/convert.go:219-225 | a child with one parent is ordered by id; an id clash keeps the child alone |
| MixedRadix.OffsetOfDigits | cmd/convert/convert.go:244-248 | every offset names an in-range assignment whose offset is that offset |
| MixedRadix.DigitsOfOffset | cmd/convert/convert.go:244-248 | every in-range assignment has an offset below the product, and that offset decodes back to it |
| MixedRadix.EnumerationIsTotal | cmd/convert/convert.go:426-430 | enumerating offsets below the product visits every assignment exactly once |
| MixedRadix.RecodeBack | cmd/convert/convert.go:426-430 | recoding between the two conventions is undone by recoding back, and is the identity within one convention |
| MixedRadix.TargetIsBijection | cmd/convert/convert.go:244-248 | the offset the k-th value read lands at is below the product, and `Source` maps it back to k |
| MixedRadix.SourceIsInverse | cmd/convert/convert.go:244-248 | `Target` undoes `Source`, so the two are inverse bijections |
| LtmTables.Blanks | cmd/convert/convert.go:243 | the fresh table has one unfilled cell per value |
| LtmTables.Order | cmd/convert/convert.go:244-248 | the index visits one offset per joint assignment; the k-th is where the k-th step of `NextRight`'s walk lands in the stored table |
| LtmTables.OrderIsPermutation | cmd/convert/convert.go:244-248 | the index never visits an offset twice and stays inside the table |
| LtmTables.Scatter | cmd/convert/convert.go:245-248 | a scattered table has as many cells as values |
| LtmTables.ScatterSucceeds | cmd/convert/convert.go:245-248 | with one distinct in-range offset per value, the scatter succeeds |
| LtmTables.ScatterOverruns | cmd/convert/convert.go:245-248 | with more values than offsets, the scatter fails (the model's stop for an index past its end: see Left out) |
| LtmTables.Arrange | cmd/convert/convert.go:242-249 | a table with one value per joint assignment always arranges, into a table as long as the values read; more values are a failure here (see Left out) |
| LtmTables.ArrangePlaces | cmd/convert/convert.go:242-249 | value k lands at the offset the index names at its k-th step, so the arranged table is a permutation of the values read |
| LtmTables.MakeFactor | cmd/convert/convert.go:239-250 | a one-variable block keeps its values in file order; a two-variable block with a full table builds |
| LtmTables.MakeFactorShape | cmd/convert/convert.go:239-250 | the scope is the child and at most the parent, in ascending id order; the values are a permutation of those read |
| LtmTables.CanonicalOrder | cmd/convert/convert.go:219-225 | the factor's own variable order is the declared order, or its reverse when the parent's id is smaller |
| LtmTables.PairWalk | cmd/convert/convert.go:247 | for a child with a states and a parent with b, the k-th step of `NextRight` is child state k / b and parent state k % b |
| LtmTables.PairTarget | cmd/convert/convert.go:244-248 | value k of a pair is stored in place when the storage order agrees with the walk over the factor's own variable order, and at k / b + a * (k % b) otherwise |
| LtmTables.PairTable | cmd/convert/convert.go:242-249 | a full pair table arranges, every value sits at its pair place, and the table is the one read when the storage order agrees with the walk |
| LtmParser.TrimValues | cmd/convert/convert.go:233-236 | one value per table token |
| LtmParser.TrimValuesPointwise | cmd/convert/convert.go:233-236 | each value is its token with `;` trimmed from both ends |
| LtmParser.FindPrefixIsFirst | cmd/convert/convert.go:204-206 | the `discrete`/`table` search stops at the first matching token, and fails only when none follows |
| LtmParser.FindTokenIsFirst | cmd/convert/convert.go:233 | the search for `}` stops at the first one, and fails only when none follows |
| LtmParser.VariableBlock | cmd/convert/convert.go:195-211 | a block that reads stays inside the stream; a stream ending before the name is truncated |
| LtmParser.VariableBlockOutcome | cmd/convert/convert.go:195-211 | a known name is not re-added and takes no id; a new name gets the next id, the latent flag iff its name contains `variable`, and the cardinality of the first `discrete` token after it; no such token means truncation |
| LtmParser.VariableBlockKeepsOrder | cmd/convert/convert.go:189-209 | on an ascending list whose next id follows its largest, a variable block appends and keeps both facts |
| LtmParser.NewNameNeedsDiscrete | cmd/convert/convert.go:204-207 | a new name registers only when a `discrete` token follows |
| LtmParser.ReadTable | cmd/convert/convert.go:228-237 | a table that reads stays inside the stream; the only failure is truncation |
| LtmParser.ReadTableTruncated | cmd/convert/convert.go:228-230 | no `table` token before the end is truncation |
| LtmParser.ReadHeaderOutcome | cmd/convert/convert.go:215-226 | the child is the variable named after the opening token; there is a parent iff `|` follows, and it is the variable of the next name; an unknown child name fails |
| LtmParser.Combine | cmd/convert/convert.go:212-237 | a block reads iff its header and table read; the header's error comes first |
| LtmParser.ProbabilityBlock | cmd/convert/convert.go:212-237 | a block that reads takes at least one token and stays inside the stream |
| LtmParser.BlockParts | cmd/convert/convert.go:212-237 | a block is its header followed by the table that spans from the first `table` token to the first `}` |
| LtmParser.BlockVarsIn | cmd/convert/convert.go:218-225 | a block names listed variables only |
| LtmParser.FactorScoped | cmd/convert/convert.go:239-250 | a block's factor has one or two listed variables in ascending id order, the child among them, and a permutation of the values read |
| LtmParser.BlockIgnoresRest | cmd/convert/convert.go:212-237 | a block's reading does not depend on what follows it |
| LtmParser.RegistersPointwise | cmd/convert/convert.go:189-209 | the k-th name registered gets id `maxID+1+k`, no earlier variable carries its name, and it is latent iff its name contains `variable` |
| LtmParser.ScanFromInvariants | cmd/convert/convert.go:193-253 | the token walk keeps the pre-seeded list as a prefix, registers new names one by one with consecutive ids, and reads blocks over listed variables |
| LtmParser.Build | cmd/convert/convert.go:239-250 | one factor per block read |
| LtmParser.BuildSucceeds | cmd/convert/convert.go:212-253 | building succeeds iff the walk read to the end and every block's factor builds; factor i is then block i's |
| LtmParser.BuildFailsFirst | cmd/convert/convert.go:212-253 | the error reported is the first failing block's, or the one that ended the walk |
| LtmParser.BuildScoped | cmd/convert/convert.go:239-250 | the built factors are well scoped over the list |
| LtmParser.ParseOutcome | cmd/convert/convert.go:182-255 | `parseLTMbif` keeps the pre-seeded list as a prefix and gives new names ids `maxID+1`, `maxID+2`, ...; a name is registered only if no earlier variable carries it; the latent flag follows the name; the list stays ascending; one well-scoped factor per block in file order |
| LtmParser.OnePerBlock | cmd/convert/convert.go:193-253 | a stream of whole probability blocks reads one block per block, in order, leaving the list and the id counter untouched |
| LtmParser.OneFactorPerBlock | cmd/convert/convert.go:182-255 | parsing such a stream succeeds iff every block's factor builds, and then yields exactly one factor per block, in order |
| CliqueTree.OverlapPositive | cmd/convert/convert.go:295 | two factors overlap iff some variable of one has the id of a variable of the other |
| CliqueTree.RootFrom | cmd/convert/convert.go:283-288 | the scan ends at a factor of smallest scope, smaller than every earlier one |
| CliqueTree.GetRoot | cmd/convert/convert.go:282-290 | the root is the earliest factor of smallest scope, and the rest is the input with exactly that one removed, order kept |
| CliqueTree.RootPartitions | cmd/convert/convert.go:289 | root and rest together are the input multiset |
| CliqueTree.InterleavingMultiset | cmd/convert/convert.go:303-310 | splitting the pool in order loses and invents nothing |
| CliqueTree.MaxOf | cmd/convert/convert.go:293-299 | the maximum bounds every count, and a positive maximum is attained |
| CliqueTree.MaxOverlap | cmd/convert/convert.go:293-299 | the maximum overlap bounds every pool factor's, and a positive one is attained |
| CliqueTree.SplitBy | cmd/convert/convert.go:303-310 | an order-preserving split into the factors of overlap m and the others; some factor has overlap m iff the first part is non-empty |
| CliqueTree.GetMaxIntersec | cmd/convert/convert.go:292-312 | no children iff nothing overlaps, and then the pool is unchanged; otherwise children and rest split the pool in order, every child has the maximum overlap and every rest factor less |
| CliqueTree.NoneTaken | cmd/convert/convert.go:300-302 | a pool with nothing taken is its own split |
| CliqueTree.AdoptKeepsShape | cmd/convert/convert.go:267-278 | dequeuing a node and queuing the factors it adopts keeps every non-root node below an earlier overlapping node |
| CliqueTree.GrownIsTree | cmd/convert/convert.go:267-279 | a finished walk is a linked tree in breadth-first order |
| CliqueTree.BuildTree | cmd/convert/convert.go:257-280 | an empty input has no tree; otherwise the root is `getRoot`'s, every non-root node shares a variable with its earlier parent, nodes are breadth-first, and nodes plus dropped factors are the input multiset |
| Evidence.ObservedFrom | cmd/convert/convert.go:459-464 | the set fields from a column on, with their columns, in ascending column order |
| Evidence.Observed | cmd/convert/convert.go:459-464 | each entry is a field that is not `*`, at its 0-based column, in ascending order |
| Evidence.UnmaskObserved | cmd/convert/convert.go:459-464 | the set fields and the line's length give back the whole line |
| Evidence.EntryTokens | cmd/convert/convert.go:466-468 | two tokens per set field |
| Evidence.EvidLine | cmd/convert/convert.go:458-469 | an encoded line starts with the number of set fields of the line, then a space |
| Evidence.EvidLines | cmd/convert/convert.go:454-470 | at most one encoded line per input line |
| Evidence.EvToEvid | cmd/convert/convert.go:449-477 | the first line counts the encoded lines that follow |
| Evidence.ReadEvid | cmd/convert/convert.go:465-468 | a line that reads has a count and that many `id value` pairs |
| Evidence.EntryTokensRead | cmd/convert/convert.go:466-468 | the `id value` tokens read back as the entries |
| Evidence.EvidLineRoundTrip | cmd/convert/convert.go:458-469 | an encoded line reads back as the line's set fields, when the set values hold no white space |
| Evidence.EvidLinesRead | cmd/convert/convert.go:454-470 | the encoded lines read back as the set fields of each non-empty line |
| Evidence.EvToEvidRoundTrip | cmd/convert/convert.go:449-477 | the whole `ev2evid` file reads back as the set fields of each non-empty input line, in order |
| Evidence.MergeLine | cmd/inference/inference.go:79-86 | fails iff the query sets a field past the evidence line's last field; otherwise the merged line has the evidence line's fields, each the query's where the query sets it and the evidence's elsewhere |
| Evidence.TrailingUnsetMerges | cmd/inference/inference.go:80-85 | a query line longer than the evidence line merges when its extra fields are all `*` |
| Evidence.MergeQev | cmd/inference/inference.go:69-88 | one merged line per query line, paired with the evidence line of the same position; fails iff some query line sets a field past the end of its evidence line |
| Evidence.MergedObserved | cmd/inference/inference.go:80-86 | a merged column is set iff the query or the evidence sets it |
| QueryGen.SampleLine | cmd/qevgen/qevgen.go:64-82 | no line pair when the root's id is outside the line's columns; a pair only when the root's state can be sampled |
| QueryGen.WriteLine | cmd/qevgen/qevgen.go:95-102 | no field stays empty, set fields are kept, a field is `*` iff it was empty or `*`, and the written line splits back into the fields |
| QueryGen.WrittenLineRoundTrip | cmd/qevgen/qevgen.go:95-102 | a written line, encoded by `ev2evid`, reads back as its set fields |
| QueryGen.SampleState | cmd/qevgen/qevgen.go:88-93 | with a sample line, the field at the variable's id; without one, the decimal of a state below the cardinality |
| QueryGen.Chosen | cmd/qevgen/qevgen.go:71-78 | an out-of-range count takes every leaf in its own order; otherwise exactly that many leaves, all leaves |
| QueryGen.SetLeaves | cmd/qevgen/qevgen.go:78-80 | the evidence fields keep the line's length |
| QueryGen.SetLeavesKeeps | cmd/qevgen/qevgen.go:78-80 | a column no chosen leaf has keeps its field |
| QueryGen.SetLeavesSets | cmd/qevgen/qevgen.go:78-80 | a chosen leaf's column holds that leaf's sampled state |
| QueryGen.QueryWritten | cmd/qevgen/qevgen.go:65-68 | the query line is `*` everywhere but the root's column |
| QueryGen.QueryLineSetsRoot | cmd/qevgen/qevgen.go:64-68 | the query line is `*` in every column but the root's, which holds the root's state as written (an empty state is written as `*`) |
| QueryGen.ChosenDistinct | cmd/qevgen/qevgen.go:71-78 | the chosen leaves have distinct ids |
| QueryGen.EvidenceFieldsSet | cmd/qevgen/qevgen.go:69-80 | before writing, the root's column is cleared and each chosen leaf's column holds its state |
| QueryGen.EvidenceLineSetsLeaves | cmd/qevgen/qevgen.go:64-82 | in the evidence line a column is set only if some chosen leaf has that id, and a chosen leaf's column holds its state as written (an empty state is written as `*`); so the root's column is set only if the root is a chosen leaf |
| UaiFormat.Smooth | cmd/convert/convert.go:436-447 | a copy of the same length: 1 becomes `1 - eps`, 0 becomes `eps`, everything else is kept |
| UaiFormat.SmoothIdentity | cmd/convert/convert.go:436-447 | with no smoothing the table is unchanged |
| UaiFormat.SmoothRemovesCertainty | cmd/convert/convert.go:436-447 | probabilities smoothed by an `eps` in (0, 1) are all strictly between 0 and 1 |
| UaiFormat.UaiTable | cmd/convert/convert.go:424-431 | the entries line exists iff the table is long enough, and has one entry per assignment |
| UaiFormat.UaiTableCovers | cmd/convert/convert.go:426-430 | every stored entry is printed exactly once, smoothed, at its position in last-fastest order |
| UaiFormat.NetCards | cmd/convert/convert.go:409-411 | one cardinality per variable |
| UaiFormat.UaiTables | cmd/convert/convert.go:423-433 | every factor's entries line, in variable order, iff each table is long enough |
| UaiFormat.Blocks | cmd/convert/convert.go:423-433 | three lines per factor: its size, its entries, and an empty line |
| UaiFormat.Layout | cmd/convert/convert.go:407-433 | `MARKOV`, the counts, the cardinalities, the scope lines, an empty line, then each factor's block at its position |
| UaiFormat.WriteUai | cmd/convert/convert.go:402-434 | the file exists iff every table is long enough, and has `5 + 4n` lines |
| UaiFormat.ScopeLineRead | cmd/convert/convert.go:416-420 | a scope line reads back as the scope's ids |
| UaiFormat.ReadLayout | cmd/convert/convert.go:407-433 | the reader accepts a layout whose parts read back, giving those parts |
| UaiFormat.ScopeLinesRead | cmd/convert/convert.go:414-421 | the scope lines read back as every factor's ids |
| UaiFormat.SizeLinesRead | cmd/convert/convert.go:425 | the size lines read back as the table sizes |
| UaiFormat.TableLinesRead | cmd/convert/convert.go:427-431 | the entries lines split back into the entries |
| UaiFormat.UaiRoundTrip | cmd/convert/convert.go:402-434 | reading a written file gives back the cardinalities, every scope's ids, the table sizes and the printed entries |
| FgFormat.FgBlock | cmd/convert/convert.go:384-398 | the scope size, the ids, the cardinalities, the table size, one `index<TAB>value` line per entry, then an empty line |
| FgFormat.WriteFg | cmd/convert/convert.go:376-400 | the factor count, an empty line, then the blocks |
| FgFormat.EntryRead | cmd/convert/convert.go:396 | an entry line reads back as its index and value |
| FgFormat.BlockRead | cmd/convert/convert.go:384-398 | a block followed by anything reads back as what it states, taking exactly its lines |
| FgFormat.FgRoundTrip | cmd/convert/convert.go:376-400 | reading a written file gives back every factor's ids, cardinalities and entries, in order |
| MarFormat.Rows | cmd/convert/convert.go:503-508 | the fields of each non-empty line, in order |
| MarFormat.RowTokens | cmd/convert/convert.go:513-516 | a row is its length followed by its formatted values |
| MarFormat.MoToMar | cmd/convert/convert.go:498-519 | `MAR`, then one line |
| MarFormat.ReadRow | cmd/calcdist/calcdist.go:120-124 | a row takes its length token and that many values (short rows: see Left out) |
| MarFormat.LineTokens | cmd/calcdist/calcdist.go:117-124 | the lines after the first are one stream of white-space free tokens |
| MarFormat.ReadMar | cmd/calcdist/calcdist.go:111-127 | a file that reads has, after its first line, a token stream starting with the row count, however the rows are spread over lines |
| MarFormat.RowRead | cmd/calcdist/calcdist.go:120-124 | a written row followed by anything reads back as its values |
| MarFormat.RowBlocksRead | cmd/calcdist/calcdist.go:119-125 | written rows back to back read back as the formatted rows |
| MarFormat.MarRoundTrip | cmd/calcdist/calcdist.go:111-127 | `readMarFile` on the output of `writeMoToMar` gives back the row count, every row's length and its formatted values |
| MarFormat.MarRowsPerLine | cmd/calcdist/calcdist.go:111-127 | a MAR file with the row count on its own line and one space-separated row per line reads back as the rows |
| CalcDist.InfValues | cmd/calcdist/calcdist.go:129-140 | at most one value per line |
| CalcDist.InfValuesAll | cmd/calcdist/calcdist.go:133-138 | when every line parses, each line gives its value's `exp`, in order |
| CalcDist.InfValuesSkips | cmd/calcdist/calcdist.go:134-137 | a line that does not parse adds nothing |
| CalcDist.ParseValues | cmd/calcdist/calcdist.go:94-109 | a file starting with `MAR` gives the MAR rows when they read as numbers; any other file gives one row (unparsable values: see Left out) |
| CalcDist.Pairs | cmd/calcdist/calcdist.go:79-82 | row i of the first input paired with row i of the second, for every row of the first |
| CalcDist.Compare | cmd/calcdist/calcdist.go:72-84 | rejected iff the second input has fewer rows than the first or the first has none |
| CalcDist.CompareIsMeanOfPairs | cmd/calcdist/calcdist.go:76-84 | the result is the mean of the paired distances, so it lies within any bounds of them |
| CalcDist.CompareIgnoresExtra | cmd/calcdist/calcdist.go:78-83 | extra rows of the second input change nothing |
| CalcDist.CalcDist | cmd/calcdist/calcdist.go:62-84 | a result means a known distance name and two readable inputs, the first with at least one row and no more than the second |
| CalcDist.UnknownNameFirst | cmd/calcdist/calcdist.go:64-69 | an unknown distance name is reported whatever the files hold |
| CalcDist.SingleRows | cmd/calcdist/calcdist.go:76-77 | two single-row files are compared by the named distance of their rows |
| XmlBif.Chunks | cmd/convert/convert.go:341-353 | the rows exist iff the table holds enough values; row k is the k-th run of child-cardinality values |
| XmlBif.ChunksCover | cmd/convert/convert.go:341-353 | the rows laid end to end are the table's first `rows * c` values |
| XmlBif.States | cmd/convert/convert.go:325-327 | one state name per state |
| XmlBif.RowLabels | cmd/convert/convert.go:343-348 | one parent state per parent |
| XmlBif.ProbRows | cmd/convert/convert.go:339-354 | one row line per joint assignment of the parents iff the table is long enough; row k prints the assignment's states and the k-th run |
| XmlBif.EveryAssignmentOneRow | cmd/convert/convert.go:339-354 | every joint assignment of the parents has exactly one row, the one at its offset |
| XmlBif.RowAt | cmd/convert/convert.go:349 | row k holds the values from `k * card` on |
| XmlBif.NoParentAsOneRow | cmd/convert/convert.go:355-360 | a single-spaced table without parents is printed as its values joined by `, ` with `E+00` removed |
| XmlBif.XmlVars | cmd/convert/convert.go:323-330 | one variable per XML variable, with consecutive ids from 0, its state count and its name |
| XmlBif.XmlVarsRegistered | cmd/convert/convert.go:329 | adding them one by one to an empty list gives them in order |
| XmlBif.FindAll | cmd/convert/convert.go:334-338 | every named variable, in order, or a name no variable carries |
| XmlBif.ProbLines | cmd/convert/convert.go:331-362 | an entry without parents prints its header, its table line and `}`; with parents, its header, one row per assignment and `}` |
| XmlBif.WriteXmlBif | cmd/convert/convert.go:314-363 | the text exists iff every entry prints; a failure is the first failing entry's; the text is the network line, the variables' blocks, then the entries' lines |
| XmlBif.VariableDeclared | cmd/convert/convert.go:322-330 | the network line comes first, then each variable's three lines in order |
| Inference.Names | cmd/inference/inference.go:43-66 | the result file is the log file, or the model's base name plus `.infkey` |
| Inference.ExtOfSuffix | cmd/inference/inference.go:43 | a name ending in an extension has that extension, and stripping it gives the base |
| Inference.UaiNameOfModel | cmd/inference/inference.go:43-44 | the converted model's name has extension `.uai` and the model's base name |
| Inference.ResultName | cmd/inference/inference.go:62-66 | without a log file the result file has extension `.infkey` and the model's base name |
| Inference.WriteProbs | cmd/inference/inference.go:99-110 | one line per probability, in order, then an `avg` line only when there is a probability |
| Inference.AverageInRange | cmd/inference/inference.go:102-109 | the average printed lies within any bounds of the probabilities |
| Inference.Overlay | cmd/inference/inference.go:122-128 | a block overwrites positions 0..n-1 in place and grows the result only when it is longer |
| Inference.LayeredSpec | cmd/inference/inference.go:117-129 | after all blocks, the result is as long as the longest block and each position holds the last block reaching it |
| Inference.ParsedPositions | cmd/inference/inference.go:112-131 | every position of a parsed file holds the value of the last block long enough to reach it |
| Inference.PRBlocks | cmd/inference/inference.go:117-129 | at most one block per line, and each block shorter than the lines it was read from |
| Inference.ParsePR | cmd/inference/inference.go:112-131 | an empty file gives no probabilities; otherwise the file parses iff the blocks after the header line read |
| Inference.PRBlocksRead | cmd/inference/inference.go:117-129 | blocks printed as a count and its values read back as themselves |
| Inference.PRRoundTrip | cmd/inference/inference.go:112-131 | a header line followed by printed blocks parses into the blocks overlaid in order |
| Inference.Difference | cmd/inference/inference.go:56 | defined iff the lengths agree, and then each difference plus the subtrahend is the minuend |
| Inference.Answer | cmd/inference/inference.go:46-61 | without evidence, the query's probabilities as the solver's `PR` file reads; with evidence, none when a query line sets a field past its evidence line (the `mergeQev` panic), and otherwise the merged lines' probabilities less the evidence's, which exist iff both `PR` files read and have the same length |
| Inference.Infer | cmd/inference/inference.go:42-67 | the result goes to the derived file name, exists iff the answer does, and holds one line per probability of the answer, in order, each printed by `show` |
| Sampling.SampleCommand | cmd/sample/sample.go:66-74 | a command exactly when the count is positive |
| Sampling.SampleCommandFields | cmd/sample/sample.go:70-73 | the command's fields are the program, the model, the count and the output, and the count reads back |
| Sampling.Generate | cmd/sample/sample.go:43-64 | no run without a model, an output name or a non-zero total; a run converts to the `.uai` name, starts one command per positive count, and writes the headers of the variables |
| Sampling.TrainingOnly | cmd/sample/sample.go:52-58 | a run with only a training count starts the sampler once, writing the `.train` set |
| PmLearn.ReadParentLine | cmd/pmlearn/pmlearn.go:55-60 | a line without `<-` stops the reading |
| PmLearn.StopsAtLineWithoutArrow | cmd/pmlearn/pmlearn.go:54-58 | nothing after the first line without `<-` is read |
| PmLearn.ParentEntries | cmd/pmlearn/pmlearn.go:54-61 | at most one entry per line, the i-th being what line i reads as |
| PmLearn.MapValues | cmd/pmlearn/pmlearn.go:60 | every child in the map is paired with the parent list of an entry naming it |
| PmLearn.ParseParentMat | cmd/pmlearn/pmlearn.go:48-63 | the map reads iff the entries do, and each child's parent list is the one some line gives it |
| PmLearn.MapKeys | cmd/pmlearn/pmlearn.go:60 | the map holds a child iff some line names it |
| PmLearn.LastEntryWins | cmd/pmlearn/pmlearn.go:60 | a later line for the same child replaces the earlier parent list |
| PmLearn.ParentTextRead | cmd/pmlearn/pmlearn.go:55-60 | `c<-p1,...,pk,` reads back as child c with parents p1..pk, and `c<-` as no parent |
| PmLearn.Resolve | cmd/pmlearn/pmlearn.go:69-71 | every parent id resolves iff some variable carries it, and each resolves to the variable `FindByID` finds |
| PmLearn.NodeOf | cmd/pmlearn/pmlearn.go:67-74 | a node builds iff every listed parent resolves |
| PmLearn.BuildStruct | cmd/pmlearn/pmlearn.go:65-77 | one node per variable, in variable order, iff every node builds |
| PmLearn.AddAllContents | cmd/pmlearn/pmlearn.go:68-71 | adding variables one by one keeps what was there, adds each new one's id, invents nothing, and keeps ascending order |
| PmLearn.FamilyOf | cmd/pmlearn/pmlearn.go:68-71 | the family holds the variable and every resolved parent, and nothing else |
| PmLearn.NodeFamily | cmd/pmlearn/pmlearn.go:67-74 | each node's potential is over the family, with one zero per assignment |
| PmLearn.ParmLearn | cmd/pmlearn/pmlearn.go:39-46 | the structure builds iff the parent list reads, and it is the structure built from the variables and that parent map |
| PmLearn.LearnedIsZero | cmd/pmlearn/pmlearn.go:39-46 | since learning does nothing, the written network has one node per variable with an all-zero potential |
| Printed.NumbersRead | cmd/convert/convert.go:417-419 | numbers printed with `%v ` read back as themselves |

## Left out

- File, stream and console I/O: files are line or token sequences, and output is the list of lines written.
- Outside programs (the UAI solver, the Gibbs sampler): the solver is the parameter `solve`, from the converted model's name and the evidence file's lines to the lines of the `PR` file it leaves; the sampler's command lines are the result.
- Inference.Infer: the model's conversion to UAI needs `bif.ParseStruct`, which is not part of this model; the solver gets only the converted file's name.
- Parsers and libraries not part of this model: `bif.ParseStruct`, `model.ReadBNetXML`, `xml.MarshalIndent` and the gota data frame. Their outputs are inputs here.
- `writeBif` and `writeXML` (the `bi2bif`/`bi2xml` output): they need the factor library's `Reduce`, `SumOut`, `Diff` and `Intersec`, which are not part of this model.
- Floating point: table values read by `parseLTMbif` stay tokens; `%v`, `%.7f` and `%.8f` printing is the parameter `show` or `fmt7`; parsing a number is the parameter `num`; `math.Exp` is the parameter `exp`; the distance functions are the parameter `dist`.
- Randomness: the root choice, the leaf shuffle, drawn states and solver seeds are inputs.
- The index convention of `vars.NewOrderedIndex` is the parameter `Convention`; the state names of the variable library are the parameter `stateName`.
- `VarList.Add` is modelled as insertion in ascending id order that ignores an id already listed.
- `conv.Atoi` is modelled as `strconv.Atoi`: an optional sign, then decimal digits. Its failure ends the program, so here it is an `Option` failure.
- Name lookups that fail (`FindByName`, `FindByID` returning nil): the source performs no check and hands the nil variable to the variable library, which is not part of this model and dereferences it. Since the model cannot carry a nil variable on, such a run ends in a failure naming the missing name or id. This stands for that crash; it is not a rejection the source makes.
- `parseLTMbif`: a stream that ends inside a block makes the source loop forever or reuse the previous token; here it is the failure `Truncated`.
- LtmParser.VariableBlock: a negative cardinality is a failure, since a variable's number of states is a `nat`.
- Headers.CardOf: a negative count is a failure, where `parseHeader` hands it unchecked to the variable library, which is not part of this model; a variable's number of states is a `nat` throughout.
- Headers.ParseHeaderOutcome: counts a negative cardinality as a failure, as the Headers.CardOf line explains.
- LtmTables.Arrange: a table with more values than joint assignments is the failure `TableOverrun`. The source keeps storing values through the ordered index after it has ended, and what the index returns then belongs to the variable library, which is not part of this model.
- LtmTables.Scatter: stops with `TableOverrun` when the values outlast the index's offsets, the stop the LtmTables.Arrange line explains.
- LtmTables.ScatterOverruns: states that `TableOverrun` stop, which the source does not have, as the LtmTables.Arrange line explains.
- `parseLTMbif`: `fmt.Fscanf("%s")` newline handling is not modelled: the stream is white-space separated tokens.
- MarFormat.ReadMar: a missing or unreadable count is a failure rather than a zero, and values are kept as tokens. Newlines are white space here. `readMarFile` reads a newline straight after a number as part of that read, but one after a space or tab makes the next `Fscanf` fail and keep its variable's old value; that case is not modelled.
- MarFormat.ReadRow: a row whose values run out before its count is a failure. `readMarFile` ignores `Fscanf` errors and reads on, and where the next read starts depends on how many characters a failed call consumed from an unbuffered file; that consumption is not part of this model.
- CalcDist.ParseValues: a MAR value that does not parse as a number is a failure, for the same reason; the source leaves a zero in its place and reads on from wherever the failed `Fscanf` stopped.
- PmLearn.ReadParentLine: the parent list drops its last comma field, as the source does, so `3<-0,1` loses parent 1.
- QueryGen.SampleState: without a sample line, a variable with no states gives no value, since `rand.Intn(0)` panics.
- Evidence.MergeQev: query lines past the end of the evidence file pair with an empty evidence line.
- cmd/fstats, cmd/hidgen, main.go and cmd/cmd.go are not part of this model: they are a report over a parser not part of this model, random sampling over a data frame, and command-line glue.
- The logging done by every command.
