# pyentropy in Dafny

A verified model of the core of pyentropy. pyentropy estimates the entropy and
the mutual information of discrete neural responses, and fits maximum-entropy
(Amari) models to them. The model covers four parts of the library:

- **Word encoding** (`utils.dfy`, `pyentropy.dfy`): a response is a length-n word of
  base-m symbols. `dec2base`, `base2dec` and `decimalise` convert between words and
  integers. The model proves that they are mutual inverses on in-range inputs and
  that words are encoded uniquely.
- **Naive probability estimate** (`utils.dfy`, `pyentropy.dfy`): `prob` is a padded
  histogram divided by a total. The model proves that the counts add up to the
  number of samples. When the total is `x.size` (the copy in `pyentropy.py`), the
  estimate adds up to 1.
- **The Amari constraint matrix** (`maxent*.dfy`, `combinatorics.dfy`):
  - `AmariSolve` computes the size of each interaction order (`_calculate_orders`).
  - `_recloop` and `inscol` enumerate the rows of the sparse 0/1 matrix `A` (`_generate_matrix`).
  - The model proves what each row is: order o has `comb(n, o) * (m-1)^o` rows, and
    every row sets exactly `m^(n-o)` distinct columns.
  - It proves that the enumeration emits every interaction cell (nonzero symbols at
    strictly increasing positions) exactly once.
  - It proves which columns a row sets: exactly the words that carry the row's symbols
    at the row's positions.
  - It proves that the total number of nonzeros is `Annz`, and that the full matrix
    is square (`m^n - 1` rows) by the binomial theorem.
  - It also models the index layout of `solve` and the in-place conversions `si2un`/`un2si`.
- **The information-system bookkeeping** (`discrete_systems.dfy`, `pyentropy.dfy`):
  - the input checks of `DiscreteSystem` and `SortedDiscreteSystem`;
  - the trial shuffling and truncation of `_qe_prep`;
  - the interval selection of `_subsampled_instance` for quadratic extrapolation;
  - the stimulus-block walk of `sample`;
  - the validation of correction methods in `calculate_entropies`;
  - the information breakdowns `I`, `Ish` and `pola_decomp`.

Files:

| file | module | models |
|---|---|---|
| outcomes.dfy | Outcomes | `Option`, `Result`, `Outcome` (pass or a raised error) |
| combinatorics.dfy | Combinatorics | integer power, binomial coefficient, binomial theorem, div/mod facts |
| utils.dfy | Utils | `pyentropy/utils.py`: arrays, `dec2base`, `base2dec`, `decimalise`, `prob` |
| maxent_rows.dfy | MaxEntRows | the rows `_recloop` emits, and the order sizes of `_calculate_orders` |
| maxent_columns.dfy | MaxEntColumns | `inscol`, and the column set of one row of `A` |
| maxent_matrix.dfy | MaxEntMatrix | the whole matrix `A`, its nonzero count and shape |
| maxent.dfy | MaxEnt | the class `AmariSolve`: the generation loops, `solve`'s layout, `si2un`, `un2si` |
| pyentropy.dfy | PyEntropy | the module helpers of `pyentropy.py`, method validation, `I`, `Ish`, `pola_decomp` |
| discrete_systems.dfy | DiscreteSystems | `DiscreteSystem` and `SortedDiscreteSystem`: checks, `_qe_prep`, `_subsampled_instance`, block walk |

Modelling choices:

- **A numpy integer array** is a `Mat`, a sequence of rows of unbounded integers.
  Float arrays appear only as the `DType` the source tests.
- **A failing `raise ValueError`** becomes a `Failure` of a `Result`, or a `Fail` of an
  `Outcome`, with the message as a named error.
- **numpy's `max()` of an empty array** also raises `ValueError`; it is modelled as its
  own error.
- **The sparse matrix `A`** (a `dok_matrix`) is a sequence of rows. Each row is its set of
  nonzero columns, and `A[row, cols] = 1` is a union into that row.
- **Probabilities** are exact reals.
- **`maxent.py` is Python 2 code without true division**, so `l = (m-1)/2` floors.
- **`pyentropy.py` imports true division.** `N / df` there is a float, and a float
  slice bound is used as its floor. That is exact for the integers involved.
- **`np.random.permutation`** is replaced by a permutation the caller supplies.
- **Console output is left out.** `print` and the timing messages are not modelled.

## Model

| member | source | states |
|---|---|---|
| Utils.Dec2Base | pyentropy/utils.py:205-219 | fails exactly when x is not a column vector, with that error; otherwise returns one row of `digits` base-b digits per input value |
| Utils.Base2Dec | pyentropy/utils.py:221-231 | entry t is the value of row t read as a base-b word, most significant digit first |
| Utils.Decimalise | pyentropy/utils.py:234-250 | succeeds exactly when x has n rows, is nonempty and has no digit above m-1; entry t is the value of column t as a base-m word; the wrong row count is reported as a shape mismatch |
| Utils.Dec2BaseRoundTrip | pyentropy/utils.py:205-231 | base2dec(dec2base(x, b, d), b) == x for 0 <= x < b^d |
| Utils.WordValueOfDec2Base | pyentropy/utils.py:216-218 | the value of a dec2base row is x mod b^digits, for every integer x |
| Utils.Base2DecRoundTrip | pyentropy/utils.py:205-231 | dec2base(base2dec(w, b), b, len(w)) == w for every word of base-b digits |
| Utils.Base2DecOfDec2Base | pyentropy/utils.py:205-231 | on a column vector of values in [0, b^d), base2dec undoes dec2base elementwise |
| Utils.WordValueInjective | pyentropy/utils.py:221-231 | two base-b words of one length with the same value are equal |
| Utils.WordValueRange | pyentropy/utils.py:221-231 | a word of base-b digits has a value in [0, b^len(w)) |
| Utils.Base2DecBound | pyentropy/utils.py:221-231 | every base2dec value of a digit array lies in [0, b^cols) |
| Utils.DecimaliseIsBase2DecOfTranspose | pyentropy/utils.py:221-250 | decimalise(x, n, m) is base2dec of x.T, as the base2dec docstring says |
| Utils.Histogram | pyentropy/utils.py:53-57 | fails exactly when some sample is negative; otherwise it has at least n bins (max(max(x)+1, n) for nonempty x), every sample falls in a bin, and bin v holds the number of samples equal to v |
| Utils.CountBins | pyentropy/utils.py:50-57 | a float array is refused as not an integer type; an integer array gets its histogram |
| Utils.HistogramTotal | pyentropy/utils.py:53-57 | the bin counts add up to the number of samples |
| Utils.NormaliseSum | pyentropy/utils.py:75-78 | the entries of C / N add up to sum(C) / N |
| Utils.ProbNaive | pyentropy/utils.py:50-59 | succeeds exactly when the counting does; the result is the counts divided by n |
| Utils.ProbNaiveTotal | pyentropy/utils.py:50-59 | as written, the naive estimate adds up to x.size / n |
| Utils.ProbNaiveNotNormalised | pyentropy/utils.py:50-59 | the estimate for one sample over two bins adds up to 1/2 |
| PyEntropy.Decimalise | pyentropy/pyentropy/pyentropy.py:769-785 | the unchecked copy: it fails only when x does not have n rows (numpy's dot shape error); entry t is the base-m value of column t |
| PyEntropy.DecimaliseOfDec2Base | pyentropy/pyentropy/pyentropy.py:769-785 | decimalising the transposed dec2base words of values in [0, m^n) gives the values back |
| PyEntropy.Dec2BaseOfDecimalise | pyentropy/pyentropy/pyentropy.py:876-889 | on in-range digits dec2base of the decimalised words rebuilds x.T |
| PyEntropy.DecimaliseUncheckedAliases | pyentropy/pyentropy/pyentropy.py:780-783 | without the digit test two different arrays decimalise to the same value, while the checked utils.decimalise refuses one of them |
| PyEntropy.Prob | pyentropy/pyentropy/pyentropy.py:712-721 | a float array is refused; a negative sample is a bincount error; otherwise the result has at least n bins, covers every sample, and bin v is count(v) / x.size; an empty x gives no distribution (0/0) |
| PyEntropy.ProbSumsToOne | pyentropy/pyentropy/pyentropy.py:712-721 | for a nonempty x the estimate adds up to 1 |
| PyEntropy.ChooseEstimation | pyentropy/pyentropy/pyentropy.py:199-232 | succeeds exactly when every name in methods + [method] is a known correction and qe_method is not 'qe' when 'qe' is asked for; it reports the first unknown name; it extrapolates exactly when 'qe' is among the names, with qe_method (default 'plugin') inside |
| PyEntropy.InnerMethodUnchecked | pyentropy/pyentropy/pyentropy.py:223-228 | an unknown qe_method is not refused, and an absent one defaults to 'plugin' |
| PyEntropy.MutualInformation | pyentropy/pyentropy/pyentropy.py:234-242 | I() has a value exactly when HX and HXY were computed |
| PyEntropy.ShuffledInformation | pyentropy/pyentropy/pyentropy.py:244-252 | Ish() has a value exactly when HX, HiXY, HshXY and HXY were computed |
| PyEntropy.ShuffleCorrection | pyentropy/pyentropy/pyentropy.py:237-247 | Ish() is I() plus the shuffle correction HshXY - HiXY |
| PyEntropy.PolaPrefix | pyentropy/pyentropy/pyentropy.py:256-263 | the entries written before the first KeyError: each needs the entropies it uses and the entry before it |
| PyEntropy.PolaDecompAsWritten | pyentropy/pyentropy/pyentropy.py:254-264 | it raises exactly when the first three entries exist and Ish() is None; otherwise it returns the entries written |
| PyEntropy.PolaDecompCrashes | pyentropy/pyentropy/pyentropy.py:261 | with all but HX, HshXY and HXY present, pola_decomp raises |
| PyEntropy.PolaDecomp | pyentropy/pyentropy/pyentropy.py:254-264 | cor-dep is present exactly when cor-ind is and Ish() has a value; the other entries are those written; it agrees with the as-written version whenever that returns |
| PyEntropy.PolaTelescopes | pyentropy/pyentropy/pyentropy.py:258-261 | the four terms lin + sig-sim + cor-ind + cor-dep add up to Ish() |
| PyEntropy.PolaComplete | pyentropy/pyentropy/pyentropy.py:258-261 | all four terms are present exactly when SiHXi, HiXY, HiX, ChiX, HX, HshXY and HXY all are |
| DiscreteSystems.CheckRange | pyentropy/pyentropy/pyentropy.py:477-480 | passes exactly when x is nonempty and every value is in [0, hi); an empty array is numpy's max() error |
| DiscreteSystems.CheckInputs | pyentropy/pyentropy/pyentropy.py:473-486 | passes exactly when both arrays are integer, nonempty and in range, have X_n and Y_n rows and the same number of trials; a type error is reported exactly when a dtype is not integer; a shape error only after the range checks pass |
| DiscreteSystems.CheckSortedInputs | pyentropy/pyentropy/pyentropy.py:561-571 | passes exactly when X is integer, nonempty, in range, has X_n rows, Ny has Y_m entries and Ny sums to the number of trials; the checks are taken in the source's order |
| DiscreteSystems.AcceptedWordsFit | pyentropy/pyentropy/pyentropy.py:598-607 | accepted X decimalises into [0, X_dim), so prob(d_X, X_dim) has exactly X_dim bins |
| DiscreteSystems.NewDiscreteSystem | pyentropy/pyentropy/pyentropy.py:352-386 | construction fails exactly when _check_inputs raises, with its error; otherwise the system holds X and Y, records X_dims, Y_dims, qe_shuffle and N = the trial count, and is valid |
| DiscreteSystems.NewSortedDiscreteSystem | pyentropy/pyentropy/pyentropy.py:530-559 | construction fails exactly when _check_inputs raises, with its error; otherwise the system holds X and Ny, records X_dims, Y_m and N = the trial count, and is valid |
| DiscreteSystems.DiscreteSystem.constructor | pyentropy/pyentropy/pyentropy.py:371-386 | the assignments of __init__ once the checks pass: N is the trial count and is positive |
| DiscreteSystems.DiscreteSystem.QePrep | pyentropy/pyentropy/pyentropy.py:493-506 | trial t of X and Y is old trial shuffle[t] (or t without shuffling); N becomes N - N mod 4, a multiple of 4; the system stays valid |
| DiscreteSystems.SubsampleSlice | pyentropy/pyentropy/pyentropy.py:516-517 | the interval [s*N/df, (s+1)*N/df) lies within 0 .. N |
| DiscreteSystems.SubsampleSlicesTile | pyentropy/pyentropy/pyentropy.py:516-517 | the df intervals start at 0, end at N and each starts where the previous ends |
| DiscreteSystems.SubsampleSliceExact | pyentropy/pyentropy/pyentropy.py:516-517 | when df divides N every interval holds N / df trials |
| DiscreteSystems.DiscreteSystem.SubsampledInstance | pyentropy/pyentropy/pyentropy.py:508-519 | the new system holds exactly the trials of interval s, keeps X_dims and Y_dims and has qe_shuffle = True; it fails (numpy's empty max()) exactly when the interval or a word length is empty |
| DiscreteSystems.SortedDiscreteSystem.constructor | pyentropy/pyentropy/pyentropy.py:547-559 | the assignments of __init__ once the checks pass |
| DiscreteSystems.SortedDiscreteSystem.StimulusBlocks | pyentropy/pyentropy/pyentropy.py:616-620 | stimulus i owns the trials from sum(Ny[:i]) up to sum(Ny[:i+1]) |
| DiscreteSystems.BlockOf | pyentropy/pyentropy/pyentropy.py:616-620 | each trial below N lies in the block of some stimulus |
| DiscreteSystems.BlocksDisjoint | pyentropy/pyentropy/pyentropy.py:616-620 | no trial lies in two blocks |
| DiscreteSystems.BlockWithin | pyentropy/pyentropy/pyentropy.py:616-620 | with nonnegative counts every block lies within 0 .. N |
| DiscreteSystems.SortedDiscreteSystem.QePrep | pyentropy/pyentropy/pyentropy.py:657-666 | each block is shuffled within itself by its caller-supplied permutation: trial t takes old trial Source(t), inside the same block |
| DiscreteSystems.Source | pyentropy/pyentropy/pyentropy.py:661-666 | the source of a trial lies in the same stimulus block, within 0 .. N |
| DiscreteSystems.SourceInjective | pyentropy/pyentropy/pyentropy.py:661-666 | different trials are taken from different trials: the block shuffle is a permutation |
| DiscreteSystems.ShuffleStep | pyentropy/pyentropy/pyentropy.py:662-666 | shuffling block k extends the shuffled prefix of blocks by that block |
| DiscreteSystems.ShuffledInRange | pyentropy/pyentropy/pyentropy.py:657-666 | the shuffled X keeps every value in [0, X_m) |
| DiscreteSystems.Reduced | pyentropy/pyentropy/pyentropy.py:679 | Ny_new[i] is floor(Ny[i] / df) |
| DiscreteSystems.SortedSliceInBlock | pyentropy/pyentropy/pyentropy.py:681-686 | the slice of interval s of stimulus i lies inside block i and holds Ny_new[i] trials |
| DiscreteSystems.SortedSlicesDisjoint | pyentropy/pyentropy/pyentropy.py:681-686 | the slices of two different intervals of one block do not overlap |
| DiscreteSystems.BlockSlices | pyentropy/pyentropy/pyentropy.py:678-686 | the loop builds the slices of every stimulus in order |
| DiscreteSystems.IndicesOfSlices | pyentropy/pyentropy/pyentropy.py:687 | np.r_ of the slices selects sum(Ny_new) trials, all inside 0 .. N-1 |
| DiscreteSystems.SortedDiscreteSystem.SubsampledInstance | pyentropy/pyentropy/pyentropy.py:668-690 | the new system holds the selected trials with Ny_new = floor(Ny / df), keeps X_dims and Y_m, and is valid; it fails exactly when nothing is selected or X has no rows |
| DiscreteSystems.SelectColumns | pyentropy/pyentropy/pyentropy.py:498 | x[:, idx] takes column idx[j] of x as column j |
| DiscreteSystems.Range | pyentropy/pyentropy/pyentropy.py:502-505 | the column indices kept by `[:, :-rem]` and by a slice: the integers lo .. hi-1, empty when hi <= lo |
| Combinatorics.BinomialTheorem | pyentropy/pyentropy/maxent.py:233-239 | the sum over o <= n of comb(n, o) * a^o is (a + 1)^n, which makes order_idx[n] + 1 equal to m^n |
| MaxEntRows.OrderRowsCount | pyentropy/pyentropy/maxent.py:233-237 | _recloop for order o emits exactly order_length[o-1] = comb(n, o) * (m-1)^o rows |
| MaxEntRows.RowsCount | pyentropy/pyentropy/maxent.py:273-315 | a call of _recloop at some depth emits (m-1)^(order-depth+1) rows for each choice of the remaining positions |
| MaxEntRows.OrderRowsValid | pyentropy/pyentropy/maxent.py:286-296 | every row of order o has o nonzero symbols at strictly increasing positions in [0, n) |
| MaxEntRows.OrderRowsDistinct | pyentropy/pyentropy/maxent.py:286-296 | _recloop for order o never emits the same (symbols, positions) row twice |
| MaxEntRows.OrderRowsComplete | pyentropy/pyentropy/maxent.py:286-296 | a row is emitted for order o iff it has o nonzero symbols at strictly increasing positions in [0, n), so every such cell gets a row |
| MaxEntRows.ExtendPrefix | pyentropy/pyentropy/maxent.py:280-293 | one more loop level keeps the prefix valid and moves pos_start past the new position |
| MaxEntColumns.InsRow | pyentropy/pyentropy/maxent.py:419-434 | inscol on one row: v sits before index p (clamped to the end, as numpy's slicing does) and removing it gives the row back |
| MaxEntColumns.InsCol | pyentropy/pyentropy/maxent.py:419-434 | column h is inserted before column p of every row; the rest keep their order |
| MaxEntColumns.Interleave | pyentropy/pyentropy/maxent.py:304-307 | after j passes of the coli loop the word is j symbols longer |
| MaxEntColumns.InterleaveMatches | pyentropy/pyentropy/maxent.py:304-307 | after all passes the word carries alpha[t] at index pos[t] for every t |
| MaxEntColumns.FreeOfInterleave | pyentropy/pyentropy/maxent.py:304-307 | removing the inserted positions gives the free word back |
| MaxEntColumns.InterleaveOfFree | pyentropy/pyentropy/maxent.py:304-307 | inserting a word's symbols at pos into its free part rebuilds the word |
| MaxEntColumns.RowColumns | pyentropy/pyentropy/maxent.py:296-311 | a row of order o lists m^(n-o) columns |
| MaxEntColumns.InterleavedColumns | pyentropy/pyentropy/maxent.py:304-309 | base2dec of the interleaved terms, less one, is the list of columns of the row |
| MaxEntColumns.RowColumnsMembership | pyentropy/pyentropy/maxent.py:296-311 | column c is set by a row exactly when the base-m word of c + 1 carries the row's symbols at the row's positions |
| MaxEntColumns.RowColumnsDistinct | pyentropy/pyentropy/maxent.py:304-311 | no column is listed twice |
| MaxEntColumns.ColSetSize | pyentropy/pyentropy/maxent.py:309-311 | the row sets exactly m^(n-o) distinct entries of A |
| MaxEntMatrix.AllRowsValid | pyentropy/pyentropy/maxent.py:261-264 | every row of A has an order in 1 .. k and is valid for it |
| MaxEntMatrix.AllRowsCount | pyentropy/pyentropy/maxent.py:258-264 | A has order_idx[k] rows |
| MaxEntMatrix.AllRowsDistinct | pyentropy/pyentropy/maxent.py:258-264 | no two rows of A stand for the same interaction cell |
| MaxEntMatrix.AllRowsComplete | pyentropy/pyentropy/maxent.py:258-264 | the rows of A are exactly the valid cells of the orders 1 .. k |
| MaxEntMatrix.MatrixEntries | pyentropy/pyentropy/maxent.py:258-311 | entry (i, c) of A is 1 exactly when the word of c + 1 carries row i's symbols at its positions |
| MaxEntMatrix.OrderNnz | pyentropy/pyentropy/maxent.py:243-246 | the rows of order o set order_length[o-1] * m^(n-o) entries |
| MaxEntMatrix.MatrixNnz | pyentropy/pyentropy/maxent.py:241-246 | the number of nonzeros of A is Annz |
| MaxEntMatrix.OrderIdxBinomial | pyentropy/pyentropy/maxent.py:233-237 | order_idx[i] is the partial binomial sum of comb(n, o) (m-1)^o over 1 <= o <= i |
| MaxEntMatrix.MatrixSquare | pyentropy/pyentropy/maxent.py:174-182 | with the default k = n, A has m^n - 1 = dim rows; order n + 1 adds none |
| MaxEntMatrix.OrderIdxMonotone | pyentropy/pyentropy/maxent.py:233-237 | order_idx does not decrease |
| MaxEntMatrix.OrderIdxStrict | pyentropy/pyentropy/maxent.py:233-237 | order_idx strictly increases up to n |
| MaxEntMatrix.MatrixPrefix | pyentropy/pyentropy/maxent.py:328-335 | the first order_idx[kk] rows of A are the matrix of order kk |
| MaxEntMatrix.GenerateStep | pyentropy/pyentropy/maxent.py:261-264 | one pass of the ordi loop writes the rows of order ordi + 1 from order_idx[ordi] on |
| MaxEntMatrix.AlphaStep | pyentropy/pyentropy/maxent.py:286-288 | one pass of the symbol loop writes the rows so far and then those of that symbol |
| MaxEntMatrix.PosStep | pyentropy/pyentropy/maxent.py:291-293 | one pass of the position loop writes the rows so far and then those of that position |
| MaxEnt.Half | pyentropy/pyentropy/maxent.py:181 | l = (m - 1) / 2 floored: 2l <= m - 1 < 2l + 2 |
| MaxEnt.SignedToUnsigned | pyentropy/pyentropy/maxent.py:405-409 | fails exactly when x is empty or a value lies outside [-l, l]; otherwise negatives gain m and the rest are kept |
| MaxEnt.UnsignedToSigned | pyentropy/pyentropy/maxent.py:412-416 | fails exactly when x is empty or a value lies outside [0, m-1]; otherwise values above l lose m |
| MaxEnt.UnsignedToSignedInverse | pyentropy/pyentropy/maxent.py:405-416 | un2si undoes si2un for every alphabet size |
| MaxEnt.SignedToUnsignedInverse | pyentropy/pyentropy/maxent.py:405-416 | si2un undoes un2si when m is odd |
| MaxEnt.EvenAlphabetRoundTripFails | pyentropy/pyentropy/maxent.py:171-181 | for m = 2 un2si maps 1 to -1, which si2un then refuses |
| MaxEnt.PyIndex | pyentropy/pyentropy/maxent.py:328 | Python list indexing: valid exactly for -len <= i < len, negative indices count from the end |
| MaxEnt.FreeWords | pyentropy/pyentropy/maxent.py:262-263 | terms has m^width rows and row t is the base-m word of t |
| MaxEnt.InsertColumns | pyentropy/pyentropy/maxent.py:304-307 | the coli loop leaves each row of terms interleaved with alpha at pos |
| MaxEnt.OrderTables | pyentropy/pyentropy/maxent.py:229-237 | the loop fills order_length and order_idx with their closed forms and ends with row_counter = dim, the sum of all order lengths; order_idx[n+1] = dim + 1 is set after the loop |
| MaxEnt.AnnzOf | pyentropy/pyentropy/maxent.py:243-246 | np.sum(x * y.T) is Annz |
| MaxEnt.MaxMin | pyentropy/pyentropy/maxent.py:407 | x.max() and x.min() of a nonempty array: bounds attained by some element |
| MaxEnt.AmariSolve.constructor | pyentropy/pyentropy/maxent.py:174-193 | k defaults to n unless a derived class set it; l and dim as computed; the generated matrix is valid; with k = n it has dim rows |
| MaxEnt.AmariSolve.CalculateOrders | pyentropy/pyentropy/maxent.py:222-246 | order_length, order_idx (with order_idx[n+1] = dim + 1), row_counter and Annz as their definitions state |
| MaxEnt.AmariSolve.GenerateMatrix | pyentropy/pyentropy/maxent.py:249-264 | A holds, row by row, the column sets of every row of orders 1 .. k |
| MaxEnt.AmariSolve.GenerateOrder | pyentropy/pyentropy/maxent.py:261-264 | one pass writes order ordi + 1 and moves row_counter to order_idx[ordi + 1] |
| MaxEnt.AmariSolve.RecLoop | pyentropy/pyentropy/maxent.py:273-315 | the call writes its rows into consecutive rows from row_counter on and advances row_counter by their number |
| MaxEnt.AmariSolve.SymbolPass | pyentropy/pyentropy/maxent.py:286-315 | after symbol ai the rows of symbols 1 .. ai are written |
| MaxEnt.AmariSolve.PositionLoop | pyentropy/pyentropy/maxent.py:291-315 | the position loop writes the rows of every position for one symbol |
| MaxEnt.AmariSolve.PositionPass | pyentropy/pyentropy/maxent.py:291-315 | after position pi the rows of positions pos_start .. pi are written |
| MaxEnt.AmariSolve.EmitCell | pyentropy/pyentropy/maxent.py:296-315 | at full depth one row is set and row_counter advances; otherwise the recursion writes its rows |
| MaxEnt.AmariSolve.LeafColumns | pyentropy/pyentropy/maxent.py:299-309 | the cols computed for one row are the row's columns, for order n and below |
| MaxEnt.AmariSolve.SolveLayout | pyentropy/pyentropy/maxent.py:328-330 | an out-of-range order is an IndexError; order n + 1 (or -1) needs a negative-length theta0; otherwise l = order_idx[order] thetas are solved, dim - l are zero, and A[:l] has l rows exactly when the order is at most k |
| MaxEnt.AmariSolve.LayoutFacts | pyentropy/pyentropy/maxent.py:328-335 | A[:l] is the matrix of the requested order, provided it does not exceed k |
| MaxEnt.AmariSolve.Si2Un | pyentropy/pyentropy/maxent.py:405-409 | in place: fails and leaves x unchanged when si2un raises; otherwise x becomes SignedToUnsigned of its old contents |
| MaxEnt.AmariSolve.Un2Si | pyentropy/pyentropy/maxent.py:412-416 | in place: fails and leaves x unchanged when un2si raises; otherwise x becomes UnsignedToSigned of its old contents |

## Left out

- Reading and saving `A` and `order_idx` is not modelled. This covers `loadmat`/`savemat`, the data directory and config files (`get_data_dir`, the `filename`/`local` arguments) and the `raw_input` prompt, because they are I/O. The constructor always generates the matrix.
- `fsolve`, `_solvefunc`, `_jacobian`, `_p_from_theta`, `theta_from_p`, `eta_from_p` and `Asmall.matvec` are left out. They are floating-point numerics; only the index layout of `solve` is modelled.
- The sparse storage formats are not modelled (`dok_matrix`, `tocsc`, the `blocksize` argument). `A` is a sequence of column sets.
- The bias corrections and estimators are left out: `_calc_ents`, `_calc_pt_plugin`, `_calc_nsb`, `_qe_ent`, `pt_bayescount`, `nsb_entropy`, `_get_lambda_shrink`, the 'kt', 'beta:x' and 'shrink' sampling methods, `ent`, `Ispike`, and the probability tables of `sample` (they use floating point and external programs). `quantise` is left out because it is numerical binning.
- `print` messages, the time stamps and the umfpack switch are left out; they have no effect on the results.
- `np.random.permutation` is replaced by a permutation the caller passes in, so randomness is left out.
- `_sh_instance` and the `Xsh` shuffle are left out. They build a new system over arrays that the estimators fill.
- `pyentropy/pyentropy/__init__.py` is not part of this model. It only re-exports names.
- `MaxEnt.AmariSolve.constructor` requires that m >= 2. With m = 1 numpy would build an empty matrix, and with m = 0 the dimension is negative.
- `MaxEnt.AmariSolve.constructor` requires that the k of a derived class is at most n. A larger k reads past order_idx.
- `MaxEnt.AmariSolve.RecLoop`, `SymbolPass`, `PositionLoop`, `PositionPass` and `EmitCell` are one method in the source. The loops are split into methods so that each proof stays small. The behaviour is the same.
- `MaxEnt.InsertColumns` and `MaxEnt.OrderTables` are loops carried out on local values, and `MaxEnt.AnnzOf` is a vectorised numpy sum modelled as a loop. All three compute the source's values.
- `DiscreteSystems.DiscreteSystem.constructor` and `DiscreteSystems.SortedDiscreteSystem.constructor` require that `_check_inputs` passes. The raising paths are modelled by `NewDiscreteSystem` and `NewSortedDiscreteSystem`.
- The subsampling methods require df >= 1 and s < df. `_qe_ent` only calls them with df in {2, 4} and s < df.
- DiscreteSystems.SortedDiscreteSystem.QePrep: requires that the counts in Ny are nonnegative. `_check_inputs` does not test their sign, and `_qe_prep` runs on a negative count: its `np.random.permutation` is empty and `sstart` moves backwards, so later blocks overlap earlier ones (or start at a negative, wrapped-around index) and reshuffle trials already moved. The model does not capture that case.
- DiscreteSystems.SortedDiscreteSystem.QePrep: does not model the write-through to the caller's array. `self.X` is `np.atleast_2d(X)`, which for a 2-D array is the caller's own array and for a 1-D array a view of it, so `self.X[:, sstart:send] = ...` also reorders the caller's data within each block. In the model `X` is a value, and the caller's matrix never changes. (The unsorted `_qe_prep` rebinds `self.X` to a fancy-indexed copy, so it does not write through.)
- `DiscreteSystems.SortedDiscreteSystem.SubsampledInstance` requires that the counts in Ny are nonnegative. Negative counts give slices that numpy reads differently.
- Float slice bounds (`N / df` under true division, and Ny stored as floats) are modelled by their integer floor. numpy truncates such bounds, which is the same for nonnegative values.
- Utils.Dec2Base, Utils.Base2Dec, PyEntropy.Dec2BaseOfDecimalise, Utils.Dec2BaseRoundTrip, Utils.Base2DecRoundTrip, Utils.WordValueOfDec2Base, MaxEnt.AnnzOf and MaxEntMatrix.MatrixNnz: the source computes these through float64 (`b ** np.c_[...]`, `np.remainder`, `np.floor` and `astype(int)` in dec2base, `b**np.arange(...)` with `np.dot` in base2dec, `(m*np.ones(n))**...` in Annz). Those intermediates are exact only while the values stay below 2^53; the model works with exact integers and does not capture the rounding beyond that.
- Which integer dtype an array has, and its overflow, are not modelled. Integers are unbounded, and `DType` records only integer versus float.
- Entropies in `I`, `Ish` and `pola_decomp` are exact reals, so floating-point rounding is not modelled.
- `Utils.ProbNaive` requires n > 0. With n = 0 numpy divides by zero and returns inf or nan entries.
- `PyEntropy.Prob` returns None for an empty x, where numpy returns an array of NaN (0/0).
- The stimulus-block walk of `sample` (`DiscreteSystems.SortedDiscreteSystem.StimulusBlocks`) models the slice bounds only. The per-block probability estimates are estimator code.

## Findings

| source | as written | input that shows it | evidently intended | confidence | as-written member | corrected member |
|---|---|---|---|---|---|---|
| pyentropy/utils.py:59 | `prob` passes the bin count n as the total N to `_probcount`, so the naive estimate is C / n | x = [0], n = 2: the estimate is [0.5, 0], which adds up to 1/2 | divide by the number of samples x.size, as the copy at pyentropy/pyentropy/pyentropy.py:721 does, so that the estimate adds up to 1 | not executed | Utils.ProbNaiveNotNormalised | PyEntropy.ProbSumsToOne |
| pyentropy/pyentropy/pyentropy.py:261 | `pola_decomp` computes `self.Ish() - ...`, but Ish() returns None when an entropy is missing; None minus a float raises TypeError, which the `except KeyError` does not catch | H with SiHXi, HiXY, HiX and ChiX but without HX, HshXY or HXY | report the missing Ish inputs like the other missing entries and return the terms computed so far | not executed | PyEntropy.PolaDecompCrashes | PyEntropy.PolaDecomp |
