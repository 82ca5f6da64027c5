# Small-world graph generator and results parser, in Dafny

This project models the matrix code of the graph-theory study scripts. The scripts build N x N 0/1 adjacency matrices, change them and write them out as CSV:

- `graph_generator.py` and its verbatim copy `graph_rand_selector.py` build the graph in three steps:
  - `removeLoops` clears the main diagonal.
  - `createRegularMatrix` and `_regularMatrixCalc` build a ring lattice: every node is linked to its k nearest neighbours on each side.
  - `createSmallWorldMatrix` rewires edges in the Watts-Strogatz style. With probability p, a set off-diagonal cell loses its edge, and x gets a fresh endpoint that is neither x nor y and is not yet adjacent to x.
- `writeCsvFile` writes the matrix one line per y, listing `matrix[x][y]` for x ascending.
- `networkx-docstudy.py` adds `mutateMatrix`. It disconnects random symmetric vertex pairs until a target fraction of the off-diagonal pairs has been cleared.
- `networkx-results-parser.py` turns a shortest-path log into CSV rows:
  - `parseFile` collects the algorithm name, input file name, path length and elapsed time from tagged lines.
  - It writes a row whenever all four are present, then starts over.
  - `parseLine` picks one `|`-separated field.

The Python list of lists `matrix[x][y]` is an `array2<int>` `m[x, y]`. `MatrixModel.Grid` gives its value as a `seq<seq<int>>`. Each method that changes the matrix states its new value as a function of the old one: `Lattice.ClearDiagonal`, `Lattice.Stamp`, `Rewire.Scan` or `Mutate.Mutate`. Lemmas about those functions state what the source promises: symmetry, no self-loops, 0/1 cells, the count of 1-cells, node degrees, and the ring shape of the lattice.

Randomness is passed in as parameters:

- `createSmallWorldMatrix` receives two functions:
  - `coin(x, y)` is the `random.random()` value drawn at cell (x, y).
  - `picks(x, y)` is the finite sequence of `randint` endpoints drawn there.
- `mutateMatrix` receives the sequence of `(randx, randy)` draws.

When the draws run out, the source would keep drawing. The model stops instead:

- The rewirer ends with `OutOfDraws(x, y)`.
- The mutation loop ends with `reached` false.

Modules:

- `MatrixModel`: the matrix, the graph predicates and the 1-cell counts.
- `Lattice`: `removeLoops`, `createRegularMatrix`, `_regularMatrixCalc` and the command-line clamps.
- `Rewire`: `createSmallWorldMatrix`.
- `Mutate`: `mutateMatrix`.
- `CsvFormat`: the lines of `writeCsvFile`.
- `Text`: `strip`, `split`, join, `str(int)` and `isNotEmpty`.
- `ResultsParser`: `parseFile`, `parseLine` and the algorithm names.
- `Options`: the option type.

The copies in `graph_rand_selector.py` match their `graph_generator.py` originals line for line:

- `removeLoops` 92-101
- `writeCsvFile` 164-174
- `createSmallWorldMatrix` 189-233
- `createRegularMatrix` 242-257
- `_regularMatrixCalc` 265-295

The same holds for `removeLoops` in `networkx-docstudy.py` (42-50). Each copy is covered by the same member as its original. Of the command-line clamps the model covers, only the size clamp differs: `graph_rand_selector.py` allows up to 3000 instead of 2000, and `Lattice.ClampSize` takes that bound as a parameter. The scripts also differ in code the model does not cover (listed under "Left out"): the iterations clamp, the "Changing …" messages and the usage text.

A remark on p = 0: `createSmallWorldMatrix` tests `rand <= prob`, so with p = 0 a draw of exactly 0.0 still rewires a cell. The model keeps that comparison. `Rewire.ScanAboveThreshold` states the no-change case exactly: nothing changes when every draw is above p.

## Model

| member | source | states |
|---|---|---|
| MatrixModel.ZeroPairRemovesEdge | networkx-docstudy.py:104-107 | Clearing (x,y) and (y,x) at a set off-diagonal cell of a simple graph leaves a simple graph. It has exactly two 1-cells fewer, and x has one neighbour fewer. |
| MatrixModel.LinkPairAddsEdge | graph_generator.py:197-199 | Setting (x,c) and (c,x) at an empty off-diagonal cell of a simple graph leaves a simple graph. It has exactly two 1-cells more, and x has one neighbour more. |
| MatrixModel.ZeroPairKeepsSymmetry | networkx-docstudy.py:105-106 | Clearing a symmetric off-diagonal pair keeps a symmetric matrix symmetric and leaves the diagonal as it was. |
| MatrixModel.LinkPairKeepsSymmetry | graph_generator.py:198-199 | Setting a symmetric off-diagonal pair keeps a symmetric matrix symmetric and leaves the diagonal as it was. |
| MatrixModel.ClearPair | networkx-docstudy.py:105-106 | In place, (x,y) and then (y,x) are set to 0 and nothing else changes; the same two writes clear the edge in graph_generator.py. |
| MatrixModel.SetPair | graph_generator.py:198-199 | In place, (x,c) and then (c,x) are set to 1 and nothing else changes. |
| Lattice.ClampLattice | graph_generator.py:211-213 | If either side is below 5, the sides become 5 and k becomes 2. Otherwise the sides are kept. k is then forced into [1, 4], and an in-range k is kept. |
| Lattice.ClampSize | graph_generator.py:349-355 | The script's size lands in [10, upper]: below 10 gives 10, above upper gives upper, and in-range values are kept. upper is 2000 here and 3000 in the random selector. |
| Lattice.ClampScriptDepth | graph_generator.py:357-363 | The script's k lands in [0, 4]: negative gives 1, above 4 gives 4, and 0..4 is kept. |
| Lattice.ClearDiagonalProperties | graph_generator.py:58-67 | Clearing the diagonal of a square matrix gives a zero diagonal and changes no off-diagonal cell. It keeps symmetry and 0/1 cells and is idempotent. |
| Lattice.RemoveLoops | networkx-docstudy.py:42-50 | The new matrix is the old one with cells (i,i), for i below width and height, set to 0. Every other cell is unchanged. |
| Lattice.RegularMatrixCalc | graph_generator.py:231-261 | Three loops: the sub-diagonal, the super-diagonal and the corner stitch. Afterwards the matrix is the old one with exactly the Stamped cells of offset d set to 1. |
| Lattice.StampDepths | graph_generator.py:220-223 | The `while count <= k` loop leaves exactly the matrix with offsets 1..k stamped in turn. |
| Lattice.RegularFromZero | graph_generator.py:208-223 | On an all-zero N x N matrix with N >= 5, the clamped parameters keep the sides N, and stamping the clamped depth after clearing the diagonal gives the ring lattice. |
| Lattice.CreateRegularMatrix | graph_generator.py:208-223 | The result is the clamped parameters, the cleared diagonal and offsets 1..k stamped in turn. On an all-zero N x N matrix it is exactly the ring lattice RegularLattice(N, k). |
| Lattice.StampIsRing | graph_generator.py:233-261 | For 1 <= d < N, the three stamping loops set a cell exactly when it is (i, (i+d) mod N) or (i, (i-d) mod N). |
| Lattice.StampedOffset | graph_generator.py:233-261 | Offset d stamps (x,y) if and only if (y-x) mod N is d or N-d. |
| Lattice.LatticeIsRing | graph_generator.py:220-223 | Some offset in 1..k stamps (x,y) if and only if (y-x) mod N lies in {1..k} or {N-k..N-1}. |
| Lattice.StampAllAt | graph_generator.py:220-223 | After offsets 1..k, a cell is 1 if some offset stamps it. Otherwise it keeps its old value. |
| Lattice.LatticeFromZero | graph_generator.py:208-223 | On an all-zero N x N matrix with 1 <= k < N, clearing the diagonal and stamping 1..k yields the ring lattice. A cell is 1 iff (j-i) mod N is in {1..k} or {N-k..N-1}. |
| Lattice.InRingSymmetric | graph_generator.py:231-261 | The ring relation is symmetric and never holds between a node and itself. |
| Lattice.RegularLatticeIsSimple | graph_generator.py:208-261 | The ring lattice is symmetric, 0/1 valued and has a zero diagonal. |
| Lattice.RegularLatticeDegree | graph_generator.py:208-261 | When 2k < N, every row of the ring lattice holds exactly 2k ones. |
| Lattice.RegularLatticeOnes | graph_generator.py:208-261 | When 2k < N, the ring lattice holds 2Nk ones, that is N*k undirected edges. |
| Lattice.ScriptLatticeIsRegular | graph_generator.py:349-363 | Take the script's clamped size and depth. createRegularMatrix keeps the size and uses a depth with 2k < N. The lattice it builds is a simple graph in which every node has degree exactly 2k. |
| Rewire.ClampProb | graph_generator.py:157-158 | prob lands in [0, 1]: below 0 gives 0, above 1 gives 1, and in-range values are kept. |
| Rewire.FirstAccepted | graph_generator.py:181-190 | An endpoint the rejection loop returns is in range, differs from x and y, and is not adjacent to x in either direction. |
| Rewire.FirstAcceptedSpec | graph_generator.py:183-190 | The loop exits with the first draw that passes the four-part test. It fails to exit if and only if no draw passes. |
| Rewire.NoCandidateNeverExits | graph_generator.py:183-190 | Suppose row x is 1 in every column other than x and y. Then no sequence of draws ends the rejection loop. |
| Rewire.FindNewEndpoint | graph_generator.py:181-190 | The `while done != True` loop returns exactly the first accepted draw, or none. |
| Rewire.RewireStep | graph_generator.py:172-199 | One rewire on a simple graph: clear {x,y}, then link x to an accepted endpoint c. The graph stays simple, and the count of 1-cells and the degree of x are unchanged. Only (x,y), (y,x), (x,c) and (c,x) change. |
| Rewire.RewireCell | graph_generator.py:172-199 | In place: (x,y) and (y,x) are cleared and the first accepted endpoint is linked to x. With no accepted endpoint, only the clearing has happened. |
| Rewire.VisitCellKeeps | graph_generator.py:164-199 | Visiting one cell keeps the diagonal and symmetry. On a simple graph it keeps the graph simple. When the rewire completes, it keeps the count of 1-cells and the degree of x. When the draws run out, exactly the removed edge's two 1-cells are missing. |
| Rewire.ScanRowKeeps | graph_generator.py:162-199 | A whole row y of visits keeps the diagonal and symmetry. It keeps a simple graph simple, with the same 1-cell count unless the scan runs out of draws. |
| Rewire.ScanKeeps | graph_generator.py:161-199 | The whole scan keeps the diagonal and symmetry. It keeps a simple graph simple, with its 1-cell count conserved unless it runs out of draws. |
| Rewire.ScanAboveThreshold | graph_generator.py:164-166 | If every draw is above the threshold, the scan changes nothing and completes. |
| Rewire.ScanRowAboveThreshold | graph_generator.py:164-166 | If every draw is above the threshold, a row scan changes nothing and completes. |
| Rewire.VisitZeroCell | graph_generator.py:164-166 | A diagonal cell or a cell holding 0 is left alone whatever is drawn. |
| Rewire.ScanRowStops | graph_generator.py:183-190 | Once a row runs out of draws, no later cell of that row is visited. |
| Rewire.ScanStops | graph_generator.py:183-190 | Once the scan runs out of draws, no later row is visited. |
| Rewire.VisitCellInPlace | graph_generator.py:164-199 | The in-place body for one cell produces exactly the matrix and outcome of VisitCell. |
| Rewire.ScanRowStep | graph_generator.py:164-199 | Visiting cell x in place continues the row scan: the matrix and outcome are those of ScanRow up to x + 1. |
| Rewire.ScanRowInPlace | graph_generator.py:162-199 | The in-place inner loop produces exactly the matrix and outcome of ScanRow. |
| Rewire.CreateSmallWorldMatrix | graph_generator.py:155-199 | Clamps prob and scans rows y < height and columns x < width in place. The result is exactly Scan on the old matrix, so ScanKeeps applies to it. |
| Mutate.ClampMutantPercent | networkx-docstudy.py:54-57 | The percentage lands in (0, 0.99]: 0.99 or more gives 0.99, 0 or less gives 0.01, and values in between are kept. |
| Mutate.MutantPairTargetRange | networkx-docstudy.py:60-71 | For an N x N matrix and a percentage in [0, 1], the pair target lies between 0 and N(N-1)/2. |
| Mutate.MutateReached | networkx-docstudy.py:95-107 | The loop ends with the target reached if and only if the count of cleared pairs is at least the target. |
| Mutate.MutateOnlyClears | networkx-docstudy.py:104-106 | Every cell ends unchanged or 0, the diagonal is untouched, and a symmetric matrix stays symmetric. |
| Mutate.MutateRemovesEdges | networkx-docstudy.py:95-107 | On a simple graph the result is a simple graph with exactly two 1-cells fewer per counted pair. |
| Mutate.TargetOutOfReach | networkx-docstudy.py:95-107 | If the graph has fewer edges left than pairs still to clear, the target is never reached, whatever is drawn. |
| Mutate.MutateNext | networkx-docstudy.py:95-107 | One more loop iteration below the target: a draw at a set off-diagonal cell clears the pair and counts it, any other draw is skipped. |
| Mutate.MutateMatrix | networkx-docstudy.py:53-107 | Clamps the percentage, computes the pair target and runs the draw loop in place. The final matrix, the pair count and whether the target was reached are exactly those of Mutate. |
| CsvFormat.CsvLines | graph_generator.py:130-139 | There is one line per y < height, and no line at all when width is 0. |
| CsvFormat.JoinCellsStep | graph_generator.py:134-137 | The text of the first x + 1 cells is the text of the first x, a delimiter when x > 0, and cell x. |
| CsvFormat.LineStep | graph_generator.py:134-139 | Appending cell x and a delimiter extends the line prefix by one cell, and appending the last cell and a newline completes line y. |
| CsvFormat.WriteCsvLine | networkx-docstudy.py:117-127 | For one y, the inner loop emits nothing when width is 0. Otherwise it emits exactly one line: the cells for x ascending, joined by the delimiter, plus a newline. |
| CsvFormat.WriteCsvLines | graph_generator.py:130-139 | The nested loops emit exactly CsvLines of the matrix. |
| CsvFormat.CsvLineShape | graph_generator.py:132-139 | Each line ends in a newline and holds exactly width-1 delimiters before it. |
| CsvFormat.ReadCells | graph_generator.py:132-139 | Reading back line y of the cells gives width integers, the x-th being matrix[x][y]. |
| CsvFormat.CsvRoundTrip | graph_generator.py:132-139 | Reading line y back gives matrix[x][y] for x = 0..width-1, so a symmetric matrix is written row by row. |
| Text.TrimLeftSpec | networkx-results-parser.py:195 | Left trimming drops exactly a whitespace prefix and stops at the first other character. |
| Text.TrimRightSpec | networkx-results-parser.py:195 | Right trimming drops exactly a whitespace suffix and stops at the last other character. |
| Text.StripSpec | networkx-results-parser.py:195 | A stripped line is a slice of the line with only whitespace around it, and it neither starts nor ends with whitespace. |
| Text.IsNotEmptySpec | networkx-results-parser.py:12-13 | isNotEmpty holds if and only if the string has a character that is not whitespace. |
| Text.Split | networkx-results-parser.py:246 | split always yields at least one field. |
| Text.SplitJoin | networkx-results-parser.py:246 | Splitting fields joined with a delimiter they do not contain gives the fields back. |
| Text.JoinDelimiterCount | graph_generator.py:134-137 | Joining n delimiter-free fields puts exactly n-1 delimiters in the text. |
| Text.IntToString | graph_generator.py:135 | `str(v)` is non-empty and made of digits, with a leading '-' only for a negative v. |
| Text.ParseIntToString | graph_generator.py:135 | Reading back the decimal text of an int gives the int. |
| ResultsParser.ParseLine | networkx-results-parser.py:243-247 | A field exists exactly for indexes in range. Index i >= 0 gives field i, and a negative i gives field n + i of the n fields, as Python counts from the end. A field never contains the delimiter. |
| ResultsParser.ParseLineJoin | networkx-results-parser.py:243-247 | Picking field i of delimiter-free fields joined with the delimiter gives back field i. |
| ResultsParser.SplitFieldsWithoutDelim | networkx-results-parser.py:246 | No field of a split contains the delimiter. |
| ResultsParser.InFileFields | networkx-results-parser.py:201-202 | An INFILENAME line has a field 1, namely the text after the tag up to the next delimiter. |
| ResultsParser.ResultsFields | networkx-results-parser.py:204-208 | A RESULTS line for the algorithm and key always has a field 3, the value after the key. |
| ResultsParser.AbsorbLine | networkx-results-parser.py:195-208 | The elif chain on one stripped line updates the four fields exactly as Absorb does. |
| ResultsParser.ParseFile | networkx-results-parser.py:170-229 | The output is the header line followed by the CSV rows of exactly the records Run writes, in order. |
| ResultsParser.RunPending | networkx-results-parser.py:214-228 | After any line the pending record is not complete, because it was either written and reset or still lacks a field. Its algorithm is blank or the requested one. |
| ResultsParser.RunRows | networkx-results-parser.py:214-222 | Every written record is complete and carries the requested algorithm name. |
| ResultsParser.RowOfShape | networkx-results-parser.py:220 | A row starts with the algorithm name and a comma, and ends with the memory column `,0.0` and a newline. |
| ResultsParser.BlankAlgorithmNoRows | networkx-results-parser.py:198-199 | With a blank algorithm argument no record is ever written, so the output is the header alone. |
| ResultsParser.RunRowCount | networkx-results-parser.py:190-222 | The loop writes at most one record per input line. |
| ResultsParser.AbsorbChangesOneField | networkx-results-parser.py:198-208 | The elif chain changes at most one field per line. |
| ResultsParser.InFileNameOverwrites | networkx-results-parser.py:201-202 | Every INFILENAME line overwrites the file name, whatever the algorithm, and changes nothing else. |
| ResultsParser.PathLengthRecorded | networkx-results-parser.py:204-205 | A pathLength line for the algorithm sets the path length to the value after the key and changes nothing else. |
| ResultsParser.ElapsedTimeRecorded | networkx-results-parser.py:207-208 | An elapsedTime(ms) line for the algorithm sets the elapsed time to the value after the key and changes nothing else. |
| ResultsParser.OtherAlgorithmIgnored | networkx-results-parser.py:198-208 | An ALGORITHM line that does not start with the requested algorithm's tag leaves the record unchanged. |
| ResultsParser.OtherResultsIgnored | networkx-results-parser.py:198-208 | A RESULTS line for another algorithm leaves the record unchanged. |
| ResultsParser.AlgorithmLineSets | networkx-results-parser.py:198-199 | An ALGORITHM line for a sets the algorithm name to a and changes nothing else. |
| ResultsParser.InFileLineSets | networkx-results-parser.py:201-202 | An INFILENAME line with value n sets the file name to n and changes nothing else. |
| ResultsParser.PathLengthLineSets | networkx-results-parser.py:204-205 | A RESULTS pathLength line for a with value v sets the path length to v and changes nothing else. |
| ResultsParser.ElapsedTimeLineSets | networkx-results-parser.py:207-208 | A RESULTS elapsedTime(ms) line for a with value t sets the elapsed time to t and changes nothing else. |
| ResultsParser.RecordBlock | networkx-results-parser.py:190-228 | The four-line block of one run writes exactly one record (a, n, v, t) and leaves a blank pending record. |
| ResultsParser.AlgorithmName | networkx-results-parser.py:280-287 | Code 1 or below names A-star, 2 names Bellman-Ford, and 3 or above names Dijkstra. The 'Unknown' branch is unreachable. |

## Left out

- File and console I/O are not modelled. That covers opening, truncating and writing files in `writeCsvFile` and `parseFile`, and the debug prints. The model returns the lines that would be written.
- Also not modelled: `printMatrix`, `createFilePath`, `checkFilePath`, `checkPath`, `touch`, `parseMultiLines` (a stub returning ''), and the `sys.argv` parsing of the scripts other than the size, depth and algorithm clamps.
- `writeGraphFile` is not part of this model: it is a pandas/NetworkX conversion and export. The same holds for the NetworkX path searches and drawing in `networkx-docstudy.py`.
- The iterations clamp of the two generator scripts is not modelled: it only bounds how many graphs are written. It differs between them: `graph_generator.py:345` caps above 2000 at 2000, `graph_rand_selector.py:376` caps 200 or more at 200. The "Changing …" console messages of `graph_generator.py` are console output and are left out with the rest.
- `graphtool-pathfinding.py` and `csv_combiner.py` are not part of this model. They wrap graph_tool, pandas and the filesystem.
- The copy of `writeCsvFile` in `networkx-results-parser.py` is not modelled separately. It has the same line-building loop as `CsvFormat.WriteCsvLines`.
- Probabilities and percentages are `real`. Floating-point rounding in `rand <= prob` and in the pair target of `mutateMatrix` is not modelled.
- Distributional claims are not stated: uniformity of `random.random()` and `randint`, and expected rewiring rates.
- Rewire.CreateSmallWorldMatrix: the source's rejection loop draws without end. The model takes a finite sequence of draws per cell and stops with `OutOfDraws(x, y)` when none is accepted. `Rewire.NoCandidateNeverExits` shows when no sequence can help.
- Mutate.MutateMatrix: the source's draw loop runs without end. The model takes a finite sequence of draws and ends with `reached` false when they run out before the target. `Mutate.TargetOutOfReach` shows when no sequence can help.
- Rewire.CreateSmallWorldMatrix and Mutate.MutateMatrix require a square array with width and height at most its side. Every caller passes the matrix's own side for both.
- Lattice.CreateRegularMatrix requires the array to cover the clamped width and height. The source would raise IndexError otherwise, and that path is not modelled.
- ResultsParser.ParseFile takes the delimiter of `parseLine` as a single character and the input file as a sequence of lines. Python's `split` also accepts longer separators.
- Text.Strip: only the ASCII whitespace that Python 2's `str.strip()` removes from a byte string is modelled (space, \t, \n, \r, \v, \f). Unicode whitespace is not.
- CsvFormat.CsvRoundTrip and CsvFormat.CsvLineShape assume a delimiter that is neither a digit nor '-'. The scripts use ','.
