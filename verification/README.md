# mousiplier record and table logic, in Dafny

The mousiplier scripts prepare mouse RNA-seq data for a PLIER latent-variable
model. Between reading and writing files they do deterministic record and
table work. This project models that work and proves properties of it. Every
script is a pure function from the lines or tables it read to the lines it
writes, or to the value it builds. A Python exception that ends a script is a
`Results.Fault`. A script that writes as it goes is summarised by
`Results.Emitted`, which holds the lines written before the exception and the
exception itself.

The modules follow the scripts:

- `PathwayFiles` and `PathwayTree` model `src/2_create_pathway_graph.py`:
  - the three Reactome line parsers with their mouse filter
  - the `build_tree` fixpoint loop, with its termination argument and the height rule that keeps the forest acyclic
  - the depth-first leaf collector
  - the leaf deduplication of the main block
- `Expression` models the header and row selection of `src/3_preprocess_expression.py`:
  - gene lengths
  - version-cut Ensembl ids
  - the marking rule for bad columns
  - deletion of the marked positions from the back
  - skipping of repeated samples
- `Holdout` models the sample filter of `src/1c_remove_test_studies.py`.
- `LvReshape` models the three wide-to-long latent-variable reshapers: `src/reformat_LVs.py`, `src/11a_reformat_LVs.py` and `src/11_reformat_LVs.py`.
- `Counts` models the count-table merger, `src/reformat_counts.py` and `src/8a_reformat_counts.py`.
- `Align` models the gene alignment with zero fill, `src/10_NAc_PFC_VTA_transform.py` and `src/NAc_PFC_VTA_transform.py`.
- `PyStr`, `Seqs`, `Tables` and `Results` hold the Python string operations, the sequence idioms, the labelled data frames and the failure values these modules share.

Numeric cells are an opaque type parameter `V`. Python's `str` on a cell is a
function parameter `show`. The zero used for missing genes is a parameter
`zero`. The Ensembl-to-symbol map of `get_ensembl_mappings` is an input map.

There is no latent-space projection to model, and the code's only gene
alignment never fails:

- `PlierTransform.transform` (src/transform.py:51-70) has no body beyond comments.
- The only alignment the code performs is the loop in the two transform scripts. That loop fills a missing gene with zeros.

## Model

| member | source | states |
|---|---|---|
| Results.Concat | src/reformat_counts.py:46-66 | Writes run one after another: the run completes exactly when every step completes. How it stops is `Results.ConcatStops`. |
| Results.ConcatStops | src/reformat_counts.py:46-66 | At the first step that raises, the run stops: the steps before it complete, the run holds their lines and then that step's lines, and it ends with that step's exception. |
| Results.ConcatLength | src/reformat_LVs.py:13-21 | When every step writes `count` lines, the whole run writes `steps * count` lines. |
| Results.ConcatLine | src/reformat_LVs.py:13-21 | Line `j * count + i` of such a run is line `i` of step `j`: steps appear in input order. |
| PyStr.StripBy | src/2_create_pathway_graph.py:50 | `strip` returns the middle slice of its input, and the leading and trailing runs it removes are exactly the stripped characters. The result neither starts nor ends with one, and text that does not start or end with one is returned unchanged. |
| PyStr.StripIdempotent | src/1c_remove_test_studies.py:37 | Stripping twice is stripping once. |
| PyStr.Split | src/2_create_pathway_graph.py:50 | `split(sep)` never returns an empty list and no piece holds the separator. The first piece is the text up to the first separator. |
| PyStr.SplitThenJoin | src/2_create_pathway_graph.py:50 | `sep.join(s.split(sep)) == s` for every text. |
| PyStr.SplitNoSep | src/1c_remove_test_studies.py:14 | Text without a separator splits into itself alone. |
| PyStr.SplitPrefix | src/3_preprocess_expression.py:116 | A separator-free prefix is glued to the first piece of what follows it. |
| PyStr.JoinThenSplit | src/reformat_LVs.py:21 | Pieces free of the separator, joined and split again, come back unchanged. |
| PyStr.BeforeFirst | src/1c_remove_test_studies.py:14 | `s.split(sep)[0]` is the prefix of `s` up to the first separator, or all of `s`. |
| PyStr.BeforeFirstNoSep | src/1c_remove_test_studies.py:14 | Without a separator, `s.split(sep)[0]` is `s`. |
| PyStr.JoinTerminated | src/reformat_counts.py:39-42 | Appending every piece followed by a tab gives the tab join plus one trailing tab. |
| PyStr.StripTerminated | src/reformat_counts.py:42 | Stripping a tab-terminated line whose outer pieces have no whitespace at their ends gives the plain tab join. |
| PyStr.SplitWs | src/reformat_counts.py:18 | `split()` yields non-empty tokens without whitespace. |
| PyStr.JoinThenSplitWs | src/reformat_counts.py:18 | Tokens joined by spaces and split on whitespace come back unchanged. |
| PyStr.SplitWsToken | src/reformat_LVs.py:14 | A token followed by whitespace or by the end of the text is the first token. |
| PyStr.SplitWsLeadingSpace | src/reformat_LVs.py:14 | A leading space does not change the tokens. |
| PyStr.RemoveAll | src/3_preprocess_expression.py:31 | `replace(c, '')` removes every `c` and keeps every other character. |
| PyStr.RemoveAbsent | src/3_preprocess_expression.py:31 | Removing a character that does not occur changes nothing. |
| PyStr.DecimalString | src/reformat_LVs.py:20 | `str(i)` is a non-empty run of decimal digits without a leading zero. |
| PyStr.ParseInt | src/3_preprocess_expression.py:34 | `int(s)` accepts only text that contains a digit; rejected text is a `ValueError`, here `None`. |
| PyStr.DecimalValue | src/reformat_LVs.py:20 | The digits of `str(n)` denote `n`. |
| PyStr.DecimalRoundTrip | src/3_preprocess_expression.py:34 | `int(str(n)) == n`. |
| PyStr.DecimalInjective | src/reformat_LVs.py:20 | Distinct variable numbers get distinct `LV` labels. |
| Seqs.FirstWrongWidth | src/reformat_counts.py:18 | It finds nothing exactly when every row has the width that unpacking needs. Otherwise it gives the first row that does not. |
| Seqs.FirstSeen | src/2_create_pathway_graph.py:253-260 | First-seen deduplication keeps one element per key, with no two sharing a key, and loses no key. |
| Seqs.FirstSeenKeepsFirsts | src/2_create_pathway_graph.py:255-260 | Every kept element is the first occurrence of its key. |
| Seqs.FirstSeenPrefix | src/3_preprocess_expression.py:165-175 | Deduplicating more input only appends to the result. |
| Seqs.FirstFlags | src/2_create_pathway_graph.py:255-260 | Flags exactly the positions that hold the first element with their key. |
| Seqs.FirstSeenSelects | src/2_create_pathway_graph.py:253-260 | First-seen deduplication is the filter that keeps exactly the first occurrences. |
| Seqs.FirstSeenOrder | src/2_create_pathway_graph.py:253-260 | The `k`-th kept element is the element at the `k`-th first-occurrence position. The positions strictly increase, and every first occurrence is among them, so the kept elements are all the first occurrences in input order. |
| Seqs.DedupFirstSeen | src/3_preprocess_expression.py:165-175 | The `seen`-set loop computes `FirstSeen`: distinct keys and every key kept. |
| Seqs.Indices | src/3_preprocess_expression.py:153-154 | `list(set(marks))` sorted is strictly increasing, in range, and holds exactly the marked positions. |
| Seqs.Select | src/1c_remove_test_studies.py:35-39 | Filtering never lengthens a list. |
| Seqs.SelectAtIndices | src/1c_remove_test_studies.py:35-39 | The filtered elements are the elements at the kept positions, in order. |
| Seqs.SelectAll | src/1c_remove_test_studies.py:35-39 | When every element passes, the filter returns its input. |
| Seqs.Keep | src/3_preprocess_expression.py:156-157 | Dropping marked positions never lengthens a list. It is the filter that keeps the unmarked positions. |
| Seqs.KeepLast | src/3_preprocess_expression.py:156-157 | Deciding the last position after all the others gives the same list. |
| Seqs.KeepUnmarked | src/3_preprocess_expression.py:182-183 | With no marked position in range, nothing is dropped. |
| Seqs.KeepFrom | src/3_preprocess_expression.py:182-183 | Every kept element comes from an unmarked position. |
| Seqs.KeepMarkOne | src/3_preprocess_expression.py:182-183 | Marking one more position below all other marks removes exactly that element of the kept list. |
| Seqs.DeleteReversed | src/3_preprocess_expression.py:156-157 | `for index in reversed(bad): del xs[index]` raises `IndexError` exactly when the highest mark is out of range. Otherwise it leaves the unmarked elements in order, `len(bad)` fewer than before. |
| Tables.Transpose | src/reformat_counts.py:32-33 | `.T` swaps the labels, and cell `(j, i)` of the result is cell `(i, j)` of the input. |
| Tables.TransposeTwice | src/reformat_counts.py:32-33 | Transposing twice gives back the table. |
| Tables.Position | src/10_NAc_PFC_VTA_transform.py:23-24 | A label is found exactly when it is present, and the position found is its first occurrence. |
| Tables.PositionDistinct | src/10_NAc_PFC_VTA_transform.py:24 | Among distinct labels, the label at `c` is found at `c`. |
| PathwayFiles.FieldRows | src/2_create_pathway_graph.py:50 | One field list per line, each `line.strip().split('\t')`. |
| PathwayFiles.ParsePathways | src/2_create_pathway_graph.py:47-63 | The parse fails with `IndexError` exactly when a line has fewer than three fields, whatever its organism. Otherwise the keys are exactly the ids of `Mus musculus` lines, each mapped to a pathway with that id and no genes. |
| PathwayFiles.ParsePathwaysLastWins | src/2_create_pathway_graph.py:59-61 | The stored name comes from the last mouse line with that id. |
| PathwayFiles.GenesListed | src/2_create_pathway_graph.py:83-94 | The gene table lists at most one gene per line for a pathway. |
| PathwayFiles.AddGenes | src/2_create_pathway_graph.py:79-96 | Adding genes never adds or removes a pathway. |
| PathwayFiles.AddGenesAppends | src/2_create_pathway_graph.py:83-94 | Each pathway keeps its id and name and gains exactly the genes of the six-field mouse lines naming it, in file order, repeats included. |
| PathwayFiles.EdgeOf | src/2_create_pathway_graph.py:118-126 | A relation line gives an edge exactly when it has two fields and both are known pathways. |
| PathwayFiles.ParseTree | src/2_create_pathway_graph.py:112-128 | Every parsed edge joins two known pathways, and there is at most one per line. |
| PathwayFiles.ParseTreeAppend | src/2_create_pathway_graph.py:114-126 | Edges come in file order: the edges of two stretches of the file are those of each, concatenated. |
| PathwayFiles.ParseTreeMembers | src/2_create_pathway_graph.py:112-128 | An edge is parsed exactly when both ends are known pathways and some line is exactly that pair. |
| PathwayTree.TopLevelDistinct | src/2_create_pathway_graph.py:11-18 | There are 26 top-level pathways, none listed twice. |
| PathwayTree.ExtendsTransitive | src/2_create_pathway_graph.py:162-189 | Successive loop iterations compose: nodes keep their heights and child-list prefixes, and processed pairs stay processed. |
| PathwayTree.SettledExtends | src/2_create_pathway_graph.py:167-188 | An edge already dealt with stays dealt with as the loop goes on. |
| PathwayTree.RootNodes | src/2_create_pathway_graph.py:154-157 | The roots are one height-0 childless node per top-level id, and nothing else. |
| PathwayTree.Step | src/2_create_pathway_graph.py:165-189 | A pair changes the state exactly when it is unprocessed and its parent is a node. It is then marked processed and settled. The child is the only possible new node, and every node other than the parent is unchanged. A new child is a childless node one level below its parent and is appended to the parent's children. An existing child is appended exactly when it is strictly deeper than the parent; otherwise the parent is unchanged. The height order is preserved. |
| PathwayTree.Pass | src/2_create_pathway_graph.py:165-189 | A pass that sets `tree_modified` processes a new pair. A pass that does not changes nothing, and after it every pair is processed or has a parent that is not a node. |
| PathwayTree.Grow | src/2_create_pathway_graph.py:159-189 | The `while tree_modified` loop terminates, because the processed pairs grow within the finite pair list. On exit every pair is processed or has an unknown parent, and the height order holds. |
| PathwayTree.FirstMissing | src/2_create_pathway_graph.py:154-155 | Finds the first top-level id that is not a pathway, if there is one. |
| PathwayTree.BuildForest | src/2_create_pathway_graph.py:131-191 | For distinct top-level ids, `build_tree` fails with `KeyError` exactly when a top-level id is not a pathway, naming the first such id. Otherwise the roots are the top-level ids in order, each is a node, and every child edge increases height, so there are no cycles. |
| PathwayTree.BuildForestShape | src/2_create_pathway_graph.py:154-189 | When every top-level id is a pathway, the build succeeds. The roots have height 0. Every child link comes from a parsed edge. Every edge with a known parent is settled. Every node is a root or the child of an edge. |
| PathwayTree.Grown | src/2_create_pathway_graph.py:150-189 | Growing from the roots keeps the invariant, processes only input pairs, and leaves every pair processed or with an unknown parent. |
| PathwayTree.GrownRoots | src/2_create_pathway_graph.py:154-157 | After the loop, every top-level id is still a height-0 node. |
| PathwayTree.GrownLinks | src/2_create_pathway_graph.py:180-185 | After the loop, every child link is a parsed edge. |
| PathwayTree.GrownSettled | src/2_create_pathway_graph.py:172-189 | After the loop, every edge whose parent is a node is attached or was refused by the height rule. |
| PathwayTree.GrownOrigin | src/2_create_pathway_graph.py:183-184 | After the loop, every node is a root or the child of a parsed edge. |
| PathwayTree.BuildTree | src/2_create_pathway_graph.py:131-191 | With the fixed top-level list: `KeyError` exactly when one of its ids is not a pathway. Otherwise those ids are the roots, in order, and the forest is height-ordered. |
| PathwayTree.Leaves | src/2_create_pathway_graph.py:194-219 | `get_leaf_nodes` returns only childless nodes. It terminates because heights strictly grow along child links. |
| PathwayTree.LeafNodes | src/2_create_pathway_graph.py:250 | The leaves of the forest are childless nodes. |
| PathwayTree.LeavesSound | src/2_create_pathway_graph.py:208-217 | Every returned leaf is reachable from the input nodes along child links. |
| PathwayTree.LeavesComplete | src/2_create_pathway_graph.py:208-217 | Every reachable childless node is returned. |
| PathwayTree.LeavesExactly | src/2_create_pathway_graph.py:194-219 | A node is a returned leaf exactly when it is childless and reachable from the input. |
| PathwayTree.LeavesAppend | src/2_create_pathway_graph.py:208-217 | The traversal is left to right: the leaves below `a + b` are those below `a`, then those below `b`. |
| PathwayTree.SharedLeafRepeats | src/2_create_pathway_graph.py:208-217 | A childless node under two parents is returned once per path. |
| PathwayTree.DedupLeavesAsWritten | src/2_create_pathway_graph.py:253-260 | The loop as written raises `TypeError` exactly when a root is among the leaves, because a root's `pathway` is an unhashable dataclass. Otherwise it keeps only leaves. What it keeps is `PathwayTree.DedupAsWrittenAgrees`. |
| PathwayTree.UniqueLeaves | src/2_create_pathway_graph.py:253-260 | The intended deduplication keeps every leaf id once, none twice. Its `k`-th element is the leaf at the `k`-th position that holds the first occurrence of an id, and the positions increase, so the ids appear in the order of their first occurrence. |
| PathwayTree.DedupAsWrittenAgrees | src/2_create_pathway_graph.py:253-260 | Whenever the loop as written succeeds, which is exactly when no root is a leaf, it returns the intended deduplication. |
| PathwayTree.ChildlessRootBreaksDedup | src/2_create_pathway_graph.py:256 | With no relation lines, the roots are the leaves. The loop as written then raises `TypeError`, while the intended deduplication starts with the first top-level pathway. |
| PathwayTree.LeafForest | src/2_create_pathway_graph.py:240-247 | Parse, attach genes and build: a malformed pathway line ends it with `IndexError`. A built forest has the fixed top-level pathways as roots, and they are nodes. |
| PathwayTree.UniqueLeafPathways | src/2_create_pathway_graph.py:240-260 | The main block as written fails as the forest build fails. After a build it raises `TypeError` exactly when a top-level pathway is a leaf, and otherwise yields the intended deduplication of the leaves. |
| PathwayTree.UniqueLeafPathwaysIntended | src/2_create_pathway_graph.py:240-260 | With the deduplication keyed by id, the main block fails only where the build fails. It yields distinct ids, and they are exactly the childless pathways reachable from a top-level pathway. |
| PathwayTree.PipelinesAgree | src/2_create_pathway_graph.py:240-260 | Where the main block as written succeeds, it yields what the intended one yields. |
| Expression.FieldsOf | src/3_preprocess_expression.py:31-32 | One field list per line, each `replace('"', '').strip().split('\t')`. |
| Expression.LengthTableKeys | src/3_preprocess_expression.py:30-37 | A gene has a length exactly when some line gives it a length that `int` accepts. |
| Expression.LengthTableLastWins | src/3_preprocess_expression.py:34 | The stored length comes from the last line that gives that gene a valid length. |
| Expression.GeneLengthsFrom | src/3_preprocess_expression.py:30-37 | The rows fail exactly when one does not have two fields. The unpacking is outside the `try`, so the error names the first such row. |
| Expression.Entries | src/3_preprocess_expression.py:32-34 | A two-field row becomes its gene and `int` of its length, `None` when `int` rejects the text. |
| Expression.ParseGeneLengths | src/3_preprocess_expression.py:26-38 | The header line is skipped, so one line or none gives an empty table. The parse succeeds exactly when every later line has two fields after unquoting. |
| Expression.PathwayGenes | src/3_preprocess_expression.py:53-60 | The pathway genes are exactly the first fields of the lines after the header. |
| Expression.StripVersion | src/3_preprocess_expression.py:116 | `id.split('.')[0]` is the dot-free prefix of the id up to its first dot. |
| Expression.StripVersionCuts | src/3_preprocess_expression.py:116 | A versioned id loses exactly its version. An unversioned id is unchanged, so cutting is idempotent. |
| Expression.HeaderGenes | src/3_preprocess_expression.py:114-116 | The header ids are unquoted and version-cut, position by position. |
| Expression.SymbolMarks | src/3_preprocess_expression.py:132-140 | The symbol loop leaves a column unmarked exactly when its symbol is mapped, is a pathway gene, and did not occur at an earlier column. |
| Expression.BadFlags | src/3_preprocess_expression.py:132-150 | A column is marked exactly when it is not chosen: unmapped, repeated symbol, not a pathway gene, or unknown length. |
| Expression.LengthArray | src/3_preprocess_expression.py:143-150 | `gene_length_arr` has one entry per header id, known exactly when the id has a length. |
| Expression.SelectColumns | src/3_preprocess_expression.py:113-158 | The sorted, deduplicated marks are exactly the columns not chosen. The length list loses exactly those positions, keeps its order, and every length left is known. |
| Expression.SurvivorsDistinct | src/3_preprocess_expression.py:132-140 | Two surviving columns never share a symbol. |
| Expression.SelectRows | src/3_preprocess_expression.py:165-183 | Only the first row per sample is processed. A processed row whose highest mark is out of range raises `IndexError`, which `except ValueError` does not catch. Otherwise each row keeps its counts at unmarked positions, `len(bad)` fewer, and the samples are distinct. |
| Expression.TooShortExactly | src/3_preprocess_expression.py:181-183 | When the marks are exactly the columns not chosen, a row's deletion fails exactly when the row has no count at some such column. |
| Expression.ProcessRows | src/3_preprocess_expression.py:165-183 | Only the first row per sample is processed. The pass raises `IndexError` exactly when such a row is too short for the highest mark. Otherwise each row keeps its counts at unmarked positions, the samples are distinct, and a row's counts match the length list in number exactly when the row has one field more than the header. |
| Expression.CountsAgainstLengths | src/3_preprocess_expression.py:181-183 | After deletion, a row with its sample id in front has as many counts as there are lengths exactly when it has one field more than the header. |
| Expression.SelectCounts | src/3_preprocess_expression.py:112-183 | The selection keeps the header ids, marks exactly the columns that are not chosen, and keeps the lengths of the rest in order. The pass raises `IndexError` exactly when a first-seen row lacks a count at a marked column. Otherwise every first-seen row keeps exactly its unmarked counts. |
| Expression.Preprocess | src/3_preprocess_expression.py:107-183 | A gene-length error ends the run. Otherwise the selection and the rows are those of `Expression.SelectCounts` on the first line's ids and the later lines' fields. That includes the `IndexError` case, the marks, the surviving lengths and the surviving counts of each first-seen row. |
| Holdout.FileSamples | src/1c_remove_test_studies.py:10-15 | A metadata file names exactly the text before the first comma of each line after its header. |
| Holdout.ParseSampleFiles | src/1c_remove_test_studies.py:4-16 | The holdout set is exactly the union of the samples each file names. |
| Holdout.NoCommaWholeLine | src/1c_remove_test_studies.py:14 | A line without a comma contributes the whole line, terminator included. |
| Holdout.KeepFlags | src/1c_remove_test_studies.py:36-38 | A line passes exactly when its quote-stripped first tab field is not a holdout id. |
| Holdout.Kept | src/1c_remove_test_studies.py:35-39 | The written data lines are exactly the passing input lines, unchanged and in input order. |
| Holdout.KeptIdempotent | src/1c_remove_test_studies.py:35-39 | Filtering the output again changes nothing. |
| Holdout.FilterCompendium | src/1c_remove_test_studies.py:32-39 | The header line is copied unchanged, followed by the passing data lines. |
| Holdout.FilterIdempotent | src/1c_remove_test_studies.py:32-39 | Running the script on its own output with the same holdout set returns that output. |
| LvReshape.LvCount | src/reformat_LVs.py:8-10 | `len(header) - 1` for a non-empty header, or 0 for an empty header, where the source's -1 gives the same empty `range(1, LV_count + 1)`. |
| LvReshape.ParseSample | src/reformat_LVs.py:15 | The sample name must split on `_` into exactly four parts, or unpacking raises. The region is the third part. |
| LvReshape.ParseSampleRoundTrip | src/11_reformat_LVs.py:20 | A name built from four parts unpacks to day, treatment and region in one variant, and to treatment, day and region in the other. The replicate is dropped. |
| LvReshape.VariantsSwapDayAndTreatment | src/11_reformat_LVs.py:20 | Both variants accept the same names and read day and treatment in swapped roles. |
| LvReshape.OutLineFields | src/reformat_LVs.py:21 | An output line ends in a newline and splits back into label, day, treatment, region and value. |
| LvReshape.RowOutput | src/reformat_LVs.py:14-21 | A row writes its `LvCount` lines exactly when its name unpacks and it has enough values. A blank row or a bad name writes nothing and raises. A short row writes the lines it has values for, then raises `IndexError`. |
| LvReshape.ValueLines | src/reformat_LVs.py:19-21 | Variables `1..m` give `m` lines. |
| LvReshape.ValueLinesAt | src/reformat_LVs.py:19-21 | Line `i` is variable `i + 1`: its label, the sample fields and token `i + 1`. |
| LvReshape.RowOutputLine | src/reformat_LVs.py:19-21 | Line `i` of a row carries the label of variable `i + 1` and the row's token `i + 1` unchanged. |
| LvReshape.RowBlocks | src/reformat_LVs.py:13-21 | One block of output per data row, in order. |
| LvReshape.RowsOutput | src/reformat_LVs.py:13-21 | The data rows complete exactly when every row fits, and then write `rows * LvCount` lines. |
| LvReshape.RowsOutputLine | src/reformat_LVs.py:13-21 | In a complete run, line `j * LvCount + i` is line `i` of row `j`. |
| LvReshape.ReshapeTokens | src/reformat_LVs.py:6-21 | The output starts with the fixed header line. The run completes exactly when every row fits, and then has `1 + rows * LvCount` lines. |
| LvReshape.ReshapeLine | src/11_reformat_LVs.py:18-24 | Line `1 + j * LvCount + i` carries the label of variable `i + 1`, row `j`'s day, treatment and region, and its token `i + 1`. |
| LvReshape.Reshape | src/reformat_LVs.py:6-13 | The first written line is the fixed header. An input without data rows writes only that line. |
| LvReshape.GeneratedIgnoresHeaderNames | src/reformat_LVs.py:20 | With generated labels, the header's names do not affect the output, only their number. |
| LvReshape.GeneratedLinesIgnoreHeader | src/11a_reformat_LVs.py:23-25 | The generated labels `"LV" + str(i)` do not depend on the header tokens. |
| LvReshape.ReformatLvs | src/reformat_LVs.py:3-6 | `argv` must hold exactly two paths, or the unpacking raises before anything is written. Otherwise the fixed header comes first. |
| LvReshape.ReformatLvsArgparse | src/11a_reformat_LVs.py:3-11 | On a command line with exactly two positional arguments, the `argparse` variant starts with the fixed header line. |
| LvReshape.ArgparseMatchesPositional | src/11a_reformat_LVs.py:3-7 | The `argv` parameter of the `argparse` variant has no effect. On a command line with exactly two positional arguments, its output equals that of `reformat_LVs.py` given a well-formed `argv`. |
| LvReshape.ReformatLvsArgparseEntry | src/11a_reformat_LVs.py:29-30 | The entry point raises `NameError` before writing anything unless `sys` is imported. Otherwise `main` runs, and on a command line with exactly two positional arguments it writes the header first. |
| LvReshape.ReformatLvsArgparseScript | src/11a_reformat_LVs.py:1-30 | As written, the module imports only `argparse`. Run as a script, it raises `NameError` and writes nothing, whatever the input. |
| LvReshape.ArgparseScriptWritesNothing | src/11a_reformat_LVs.py:1-30 | The script as written never writes the header line that its `main` writes first. |
| LvReshape.ReformatLvsArgparseFixed | src/11a_reformat_LVs.py:1-30 | With `sys` imported, the script writes the header first on a command line with exactly two positional arguments. |
| LvReshape.FixedScriptMatchesPositional | src/11a_reformat_LVs.py:1-30 | With `sys` imported, the script writes, for a command line with exactly two positional arguments, what `reformat_LVs.py` writes for a well-formed pair of paths. |
| LvReshape.ReformatLvsNamed | src/11_reformat_LVs.py:11 | The header-label variant starts with the fixed header line. |
| Counts.PairMapKeys | src/reformat_counts.py:17-19 | A BAM name is mapped exactly when some line names it. |
| Counts.PairMapLastWins | src/reformat_counts.py:19 | A later line for the same BAM name overwrites an earlier one. |
| Counts.NameMapFrom | src/reformat_counts.py:15-20 | Every line must unpack into exactly two tokens, or `ValueError` names the first that does not. Otherwise the lines are stored in order. |
| PyStr.TokenRows | src/8a_reformat_counts.py:19 | Every line is read as `line.strip().split()`: the name-map lines here, and the data lines of the LV reshapers at src/reformat_LVs.py:14. |
| Counts.NameMap | src/8a_reformat_counts.py:10-21 | `get_name_map` fails exactly when a line does not have two tokens, naming the first such line. Otherwise it is the ordered, later-wins map of the pairs. |
| Counts.TabLineJoined | src/reformat_counts.py:39-42 | With fields that have no whitespace at their ends, the built line is the tab join plus a newline. |
| Counts.SampleLineJoined | src/reformat_counts.py:49-55 | A sample line is the tab join of the mapped id and the counts, plus a newline. |
| Counts.PrefixJoined | src/reformat_counts.py:49 | Writing the id and a tab before a joined count line gives the join with the id in front. |
| Counts.JoinedReadBack | src/reformat_counts.py:39-55 | A joined line splits back, without its newline, into its fields. |
| Counts.Shown | src/reformat_counts.py:52-53 | `str` is applied to every cell of a row, one text per cell. |
| Counts.SampleStep | src/reformat_counts.py:46-55 | A sample raises `KeyError` with its own name, writing nothing, exactly when it is not in the name map. Otherwise it writes one line. |
| Counts.SampleSteps | src/reformat_counts.py:46-55 | One step per row of the transposed table, in table order. |
| Counts.Combine | src/reformat_counts.py:29-37 | A name-map error ends the run before anything is written. Otherwise the run is the merge with that map. |
| Counts.Merge | src/reformat_counts.py:37-66 | Nothing is written unless the two gene lists are equal in order. The run completes exactly when every sample of both tables is mapped. An incomplete run ends with `KeyError` on an unmapped sample of one of the tables. Which sample, and which lines precede it, is stated by `Counts.MergeStopsInDay1` and `Counts.MergeStopsInDay28`. |
| Counts.FirstFault | src/8a_reformat_counts.py:63-83 | The error that ends a run of samples is the error of its first failing sample. Every sample before that one completed. |
| Counts.SampleCounts | src/reformat_counts.py:32-33 | After the transposition, the counts of sample `i` are the original table's entries `(g, i)`, in gene order. |
| Counts.SampleRunLines | src/reformat_counts.py:46-55 | When every sample is mapped, a table writes one line per sample, in table order, each with the mapped id and that sample's counts. |
| Counts.SampleRunStops | src/reformat_counts.py:46-55 | A table whose first unmapped sample is `k` writes one line per earlier sample, then stops with `KeyError` naming sample `k`. |
| Counts.MergeStopsInDay1 | src/reformat_counts.py:37-66 | If day-1 sample `k` is the first unmapped one, the run writes the header and the lines of the earlier day-1 samples, writes no day-28 line, and stops with `KeyError` naming sample `k`. |
| Counts.MergeStopsInDay28 | src/reformat_counts.py:37-66 | If every day-1 sample is mapped and day-28 sample `k` is the first unmapped one, the run writes the header, every day-1 line and the earlier day-28 lines, then stops with `KeyError` naming sample `k`. |
| Counts.MergeLines | src/8a_reformat_counts.py:54-83 | A complete run writes the header, one line per day-1 sample, then one line per day-28 sample: `1 + day1 + day28` lines. Each line carries the mapped id and the sample's counts in gene order. |
| Counts.MergeReadBack | src/reformat_counts.py:46-55 | Read back, day-1 line `1 + i` splits into the mapped id of sample `i` followed by its count for every gene. The count for gene `g` is the original entry `(g, i)`. |
| Counts.MergeLineJoined | src/reformat_counts.py:49-55 | Day-1 line `1 + i` is the tab join of the mapped id and the sample's counts, plus a newline. |
| Counts.MergeLineAt | src/reformat_counts.py:46-55 | Day-1 line `1 + i` is the sample line of day-1 sample `i`. |
| Counts.MergeHeaderBack | src/reformat_counts.py:39-43 | The header line splits back, without its newline, into the gene list, with no leading sample column. |
| Align.ColumnFor | src/10_NAc_PFC_VTA_transform.py:23-26 | A gene's column has one cell per sample, and is all zeros when the gene is absent. |
| Align.FromColumns | src/10_NAc_PFC_VTA_transform.py:21-26 | Assembling columns gives a table with the given samples and labels. Cell `(i, c)` is entry `i` of column `c`. |
| Align.Aligned | src/10_NAc_PFC_VTA_transform.py:21-26 | The aligned table keeps the expression samples in order. Its columns are the loading gene ids in order, duplicates once. |
| Align.AlignedCell | src/10_NAc_PFC_VTA_transform.py:23-26 | Every aligned column is a loading gene. A present gene copies the expression cell of that gene, and an absent gene is zero. |
| Align.AlignedColumns | src/NAc_PFC_VTA_transform.py:17-21 | The columns are exactly the distinct loading ids, none twice: expression columns not listed are dropped. |
| Align.AlignIdempotent | src/10_NAc_PFC_VTA_transform.py:21-26 | Aligning an aligned table to the same genes returns it unchanged. |
| Align.AlignToOwnColumns | src/NAc_PFC_VTA_transform.py:16-21 | A table with distinct labels, aligned to its own labels, comes back unchanged. |
| Align.FirstSeenDistinct | src/NAc_PFC_VTA_transform.py:17 | A gene list without repeats keeps all of its ids. |
| Align.AlignLoop | src/NAc_PFC_VTA_transform.py:16-21 | The column-assignment loop builds the aligned table. Reassigning an existing label replaces that column in place. |

## Left out

- `PlierTransform` (src/transform.py:15-70) and its callers at src/10_NAc_PFC_VTA_transform.py:29-31 and src/NAc_PFC_VTA_transform.py:26-28:
  - `transform` has only comments and returns `None`.
  - The constructor reads HDF5 files.
  - Importing the module runs file-reading code.
  - Floating-point linear algebra would be needed in any case.
- The misspelled `reformtted_expression_df` at src/NAc_PFC_VTA_transform.py:27 is not modelled. Whether a run reaches that line depends on the import-time code and the constructor of src/transform.py, and that file is not part of this model.
- The floating-point steps of src/3_preprocess_expression.py are not modelled:
  - `calculate_tpm` (64-87)
  - the online mean and variance (190-207)
  - the NaN and `ValueError` row skipping around them
  - the min-max standardisation (251)
- The output block of src/3_preprocess_expression.py (207-226) is not modelled. Line 210 reads `args.num_genes`, which the parser (lines 93-101) never defines, so every run that gets that far raises `AttributeError` there. Neither the output block after it nor the second pass is ever reached.
- The second pass over the count file (228-251) is not modelled. It applies the same sample skip and deletion (`Expression.ProcessRows`), except that this pass also reads the header line as a row.
- `get_ensembl_mappings` (src/3_preprocess_expression.py:104) comes from a module that is not part of this model. Its map is an input.
- `get_pathway_genes` reads the global `args.pathway_file` (src/3_preprocess_expression.py:53) instead of its parameter. `Expression.PathwayGenes` takes the lines of that file.
- Other scripts and libraries are not modelled:
  - src/5_calculate_pcs.py (incremental PCA)
  - src/10a_select_lvs.py (random shuffle, float thresholds)
  - src/2.5_add_brain_markers.py (pandas merges on hard-coded tables)
  - src/3a_count_transpose.py (a pandas read, transpose and write)
- Program plumbing is not modelled:
  - argument parsing
  - opening, reading and closing files
  - `tqdm` progress bars
  - every `print`, including `"The index is: " + index` in the count mergers
- The count mergers differ only in how they receive their file names (`sys.argv` at src/reformat_counts.py:29-35, `argparse` at src/8a_reformat_counts.py:44-52) and in closing the output file (src/8a_reformat_counts.py:85); the model takes the files' contents as parameters, and the written lines show neither difference.
- `pandas.read_csv` parsing is taken as done: tables arrive as labelled rows.
  - Duplicate column names would be renamed by pandas. The alignment lemmas that need distinct labels say so.
  - The loading table's index is taken to be its gene ids.
- Python's `str` on a count cell is the opaque parameter `show`. The alignment zero is the parameter `zero`.
- `PyStr.ParseInt` accepts ASCII digits only. Python's `int` also accepts other Unicode decimal digits.
- LvReshape.ReformatLvsArgparseEntry: `argparse`'s usage exit is not modelled. On a command line without exactly two positional arguments (`prog a`, `prog a b c`, `prog -h`), `parse_args` (src/11a_reformat_LVs.py:7) exits with `SystemExit` before the output file is opened, so nothing is written. The model instead writes the reshape for every command line, so `ReformatLvsArgparse`, `ReformatLvsArgparseFixed`, `ArgparseMatchesPositional` and `FixedScriptMatchesPositional` describe only command lines that `argparse` accepts.
- LvReshape.ReformatLvsArgparse: its own contract states only the fixed first line. The rest of its output is stated through `LvReshape.ArgparseMatchesPositional` and the `Reshape` lemmas.
- LvReshape.ReformatLvsNamed: its own contract states only the fixed first line. The line-by-line content is stated by `LvReshape.ReshapeLine` with the `FromHeader` variant.
- Seqs.Select: its own contract states only the length bound. Its contents are stated by `Seqs.SelectAtIndices`.
- PathwayTree.BuildForest: it requires distinct top-level ids. The fixed list is distinct (`PathwayTree.TopLevelDistinct`). With a repeated id the source would build two root objects, and only the later one would receive children; nodes keyed by id cannot represent that.

## Findings

| source | as written | input that shows it | evidently intended | confidence | as-written member | corrected member |
|---|---|---|---|---|---|---|
| src/2_create_pathway_graph.py:253-260 | The deduplication tests `leaf.pathway in ids_seen`. Roots are built with a `Pathway` dataclass as `pathway` (line 155), and a `@dataclass` with default equality is unhashable, so the test raises `TypeError` as soon as a root is a leaf. | A relation file with no usable lines. Every top-level pathway is then a childless root, and the first leaf is a root. | Every leaf keyed by its pathway id, the first occurrence kept, order preserved. | not executed | PathwayTree.DedupLeavesAsWritten, PathwayTree.UniqueLeafPathways, PathwayTree.ChildlessRootBreaksDedup | PathwayTree.UniqueLeaves, PathwayTree.UniqueLeafPathwaysIntended, PathwayTree.DedupAsWrittenAgrees |
| src/11a_reformat_LVs.py:29-30 | The entry point calls `main(sys.argv[1:])`, but the module imports only `argparse` (line 1). Evaluating `sys` raises `NameError` before `main` writes anything. | Any run of the file as a script, for example with an input and an output path. | `import sys`: then `main` runs, and its `argparse` reads the two paths. | not executed | LvReshape.ReformatLvsArgparseScript, LvReshape.ArgparseScriptWritesNothing | LvReshape.ReformatLvsArgparseFixed, LvReshape.FixedScriptMatchesPositional |
