# Segmentation losses: the discrete core, verified

A model, in Dafny, of the discrete logic inside the segmentation losses of
`models/seg/loss/base_moduls.py`. That logic sits between the floating-point
tensor calls the file makes. Labels are exact integers. Probabilities, losses
and embeddings are exact reals.

The model covers four pieces:

- **Target rescaling** (`_scale_target`, which `BaseCELoss`, `BaseOhemCELoss`
  and `BaseEncLoss` each carry an identical copy of). It is a nearest-neighbour
  resampling of a B x H x W label batch. Output coordinate `d` reads input
  coordinate `min(floor(d*in/out), in-1)`. Module `ScaleTarget`.
- **Encoding-loss presence rows** (`BaseEncLoss._get_batch_label_vector` and
  the dense-map branch of `BaseEncLoss.forward`). The batch is padded on the
  bottom and right with the sentinel `num_classes`. It is cut into grid x grid
  cells, ordered by image, then cell row, then cell column. Each cell gets a
  0/1 row saying which classes `0 .. num_classes-1` occur in it. Module
  `EncLoss`.
- **Embedding-loss bookkeeping** (`BaseEmbedLoss.get_mask` and the loops of
  `BaseEmbedLoss.forward`). This covers:
  - the per-class masks, written with in-place masked assignments;
  - `mask_list`, the classes with no pixels;
  - the class centres;
  - the arguments handed to the cosine-embedding loss in the pull loop and
    the push loop.

  The cosine-embedding loss itself is a function parameter. Modules
  `EmbedLoss` and `Masked`.
- **OHEM hard-pixel selection** (`BaseOhemCELoss.forward`, and `min_kept` from
  its constructor). The steps are:
  - remap ignored labels to 0 for the gather;
  - mask out ignored pixels;
  - sort by true-class probability;
  - take the candidate threshold at rank `min(min_kept, n-1)`;
  - raise it to `thresh`;
  - select the pixels strictly below it;
  - reduce by `sum` or `mean`, or raise an error.

  Module `OhemLoss`.

`Common` holds the label-map types, the `Result` type for the raised error,
row-major flattening and the integer-division facts that the index arithmetic
needs.

Methods are used where the source changes state step by step. Each method is
proved against specification functions. Lemmas state the properties of
those functions:

- `get_mask` rewrites a copy in place (`Masked` on an `array`).
- `_get_batch_label_vector` fills `tvect` row by row.
- OHEM remaps `tmp_target` in place.

Functions are used where the source is a pipeline of expressions: the
resampling, OHEM's threshold, selection and reduction.

The code's only docstring (`BaseOhemCELoss.forward`) gives tensor shapes.
Three lemmas settle expectations a reader might bring to the code, each
against what the code does:

- Class 0 gets its own branch in `get_mask`, which might suggest a different
  rule for it, such as a complement of the other classes' masks. Its three
  masked assignments (non-zero to 2, zero to 1, 2 to 0) yield the indicator
  of `t == 0`, the same equality test as every other class
  (`EmbedLoss.GetMask`).
- `thresh` might be expected to be the threshold whenever at least
  `min_kept` pixels lie below it. Take a batch in which exactly `min_kept`
  pixels lie below `thresh < 1` and every other pixel has probability 1.0.
  The candidate at rank `min_kept` is then 1.0, so the effective threshold is
  1.0, not `thresh`. The number of selected pixels is still `min_kept`
  (`OhemLoss.CertainRestThreshold`).
- `min_kept` might be expected to guarantee at least that many selected
  pixels. The guarantee holds only as `min(min_kept, n-1)` pixels. It holds
  when the candidate is below `thresh`, ties or not
  (`OhemLoss.BelowFloorSelectsBeyondRank`). It also holds when the pixel just
  below that rank is strictly below the candidate (`OhemLoss.SelectsAtLeastRank`),
  for example with pairwise-distinct probabilities (`OhemLoss.StrictSeparatesRank`).
  When the candidate reaches `thresh`, the latter is also necessary
  (`OhemLoss.SelectsRankIffSeparated`). `OhemLoss.ReachesRankIff` states the
  exact condition as one if-and-only-if. With a tie at the rank and the
  candidate at or above the floor the guarantee fails: when every kept pixel
  ties there, nothing is selected (`OhemLoss.AllTiedSelectsNothing`).

## Model

| member | source | states |
|---|---|---|
| Common.Flatten | models/seg/loss/base_moduls.py:165 | row-major flattening of one map invents no value: every flattened value occurs in some row |
| Common.FlattenIndex | models/seg/loss/base_moduls.py:165 | an h x w map flattens to h*w values, and entry `i*w + j` is the pixel at row i, column j |
| Common.FlattenBatch | models/seg/loss/base_moduls.py:78 | `view(-1)` of a batch invents no value: every flattened value occurs in the flattening of some image; `Common.FlattenBatchIndex` gives each position |
| Common.FlattenBatchLength | models/seg/loss/base_moduls.py:78 | a flattened B x H x W batch has exactly B*H*W entries, one per pixel |
| Common.FlattenBatchIndex | models/seg/loss/base_moduls.py:78 | `view(-1)` is row-major, image after image: entry `k*(h*w) + i*w + j` is pixel `(i, j)` of image `k` |
| ScaleTarget.SourceIndex | models/seg/loss/base_moduls.py:39 | the nearest-neighbour source coordinate is always a valid input index |
| ScaleTarget.Scale | models/seg/loss/base_moduls.py:37-40 | the rescaled batch has B maps of exactly the requested height and width |
| ScaleTarget.ScaleReadsSource | models/seg/loss/base_moduls.py:37-40 | every output pixel is the input pixel of the same image at the in-range source coordinates |
| ScaleTarget.ScaleNoNewLabels | models/seg/loss/base_moduls.py:37-40 | rescaling never produces a label value absent from the input |
| ScaleTarget.ScaleIdentity | models/seg/loss/base_moduls.py:37-40 | rescaling to the input's own size returns the input unchanged |
| ScaleTarget.SourceIndexMonotone | models/seg/loss/base_moduls.py:39 | source coordinates never decrease as the output coordinate grows |
| Masked.AssignWhereEq | models/seg/loss/base_moduls.py:76 | `x[x == v] = y` in place: exactly the elements equal to v become y, all others are unchanged |
| Masked.AssignWhereNe | models/seg/loss/base_moduls.py:234 | `x[x != v] = y` in place: exactly the elements different from v become y, all others are unchanged |
| EncLoss.CellsAlong | models/seg/loss/base_moduls.py:153-159 | `h // grid_size` after padding is the least number of cells of size g covering the axis: that many cells span exactly the padded length, at least the axis length and less than one cell more |
| EncLoss.PadAmount | models/seg/loss/base_moduls.py:153-154 | the pad is below the grid size and makes the length a multiple of it |
| EncLoss.PaddedIsLeastMultiple | models/seg/loss/base_moduls.py:153-154 | the padded length is the least multiple of the grid size at or above the length |
| EncLoss.Pad | models/seg/loss/base_moduls.py:155-156 | padding keeps every original pixel, grows each map by ph rows and pw columns, and fills the new pixels with the sentinel |
| EncLoss.Cell | models/seg/loss/base_moduls.py:158-160 | each cell of the reshaped tensor is a grid x grid map |
| EncLoss.CellLayout | models/seg/loss/base_moduls.py:158-160 | cell `(bi*nh + ci)*nw + cj` is the block of image bi starting at row `ci*g` and column `cj*g` |
| EncLoss.CellNumbering | models/seg/loss/base_moduls.py:160 | every cell index below `b*nh*nw` decodes to an in-range image, cell row and cell column that encode it back |
| EncLoss.CellCount | models/seg/loss/base_moduls.py:160-162 | `b*h*w // g**2` on the padded batch is exactly the number of cells `b*nh*nw` |
| EncLoss.Histc | models/seg/loss/base_moduls.py:165-166 | the histogram has one bin per class, and no bin counts more than the number of values read |
| EncLoss.HistcBin | models/seg/loss/base_moduls.py:165-166 | with bins C over [0, C-1], an integer value v in range falls into bin v |
| EncLoss.HistcCounts | models/seg/loss/base_moduls.py:165-166 | each histogram bin c counts exactly the occurrences of c, and out-of-range values are dropped |
| EncLoss.HistcPresence | models/seg/loss/base_moduls.py:165-167 | `hist > 0` at c exactly when some pixel of the cell is c |
| EncLoss.LabelRow | models/seg/loss/base_moduls.py:165-168 | a cell's row has length num_classes, and bit c is 1 exactly when c occurs in the cell |
| EncLoss.BatchLabelVector | models/seg/loss/base_moduls.py:150-170 | one row of length num_classes per padded cell; bit c of row k is 1 exactly when cell k of the padded batch contains c |
| EncLoss.PresenceMeansOccurs | models/seg/loss/base_moduls.py:152-168 | bit c of cell (bi, ci, cj) is set exactly when the unpadded image has a pixel labelled c in that block, so the sentinel and labels outside [0, C-1] never set a bit |
| EncLoss.PaddedCellIsBlock | models/seg/loss/base_moduls.py:155-160 | the cell at (bi, ci, cj) of the padded, reshaped batch is the grid x grid block of padded image bi at row `ci*g` and column `cj*g`, and that block lies inside the padded image |
| EncLoss.BlockHasOnlyImageLabels | models/seg/loss/base_moduls.py:155-156 | a label other than the sentinel found in a block of a padded map comes from a pixel of the original map inside that block |
| EncLoss.BlockHasImageLabels | models/seg/loss/base_moduls.py:155-156 | every label of the original map inside a block is still found in that block of the padded map |
| EncLoss.EncodingTarget | models/seg/loss/base_moduls.py:137-140 | the dense-map target is the presence table of the rescaled labels |
| EmbedLoss.GetMask | models/seg/loss/base_moduls.py:230-241 | both branches, including the 2/1/0 swap for class 0, yield the 0/1 indicator of `t == i` |
| EmbedLoss.ClassMasksDisjoint | models/seg/loss/base_moduls.py:230-241 | no pixel is in the masks of two different classes |
| EmbedLoss.CountZeroIff | models/seg/loss/base_moduls.py:187-188 | a class's pixel count is zero exactly when no pixel carries it |
| EmbedLoss.MaskSum | models/seg/loss/base_moduls.py:188 | `mask.sum()` of a 0/1 mask lies between 0 and the number of pixels |
| EmbedLoss.MaskSumIsCount | models/seg/loss/base_moduls.py:188 | `mask.sum()` is the number of pixels of the class |
| EmbedLoss.SumPixel | models/seg/loss/base_moduls.py:188 | `sum_pixel` is at least 1, and equals the pixel count whenever the class has a pixel |
| EmbedLoss.MaskedSelect | models/seg/loss/base_moduls.py:190-191 | `inputs[mask]` selects only embeddings of the input; `EmbedLoss.MaskedSelectIsClassRows` gives which rows and in what order |
| EmbedLoss.MaskedSelectCount | models/seg/loss/base_moduls.py:190-191 | the selection holds one embedding per pixel of the class |
| EmbedLoss.ClassPixels | models/seg/loss/base_moduls.py:190-191 | the pixels labelled `i`, strictly increasing, each in range with label `i`, and every such pixel listed |
| EmbedLoss.MaskedSelectIsClassRows | models/seg/loss/base_moduls.py:190-191 | row `q` of `inputs[mask]` is the embedding of the `q`-th pixel labelled `i`, with one row per such pixel: the class's rows in pixel order |
| EmbedLoss.MaskedSelectMembers | models/seg/loss/base_moduls.py:190-191 | an embedding is selected exactly when some pixel labelled `i` carries it |
| EmbedLoss.EmptyClasses | models/seg/loss/base_moduls.py:185-194 | after the classes `0 .. k-1`, `mask_list` holds only classes below k |
| EmbedLoss.EmptyClassesExact | models/seg/loss/base_moduls.py:185-194 | `mask_list` holds exactly the classes whose selection is empty, each once, in increasing order |
| EmbedLoss.EmptyClassMeansAbsent | models/seg/loss/base_moduls.py:191-193 | with embeddings of positive dimension, a class is in `mask_list` exactly when no pixel carries it |
| EmbedLoss.ColumnSum | models/seg/loss/base_moduls.py:197 | `torch.sum(sim_input, 1)` has one coordinate per embedding dimension |
| EmbedLoss.Center | models/seg/loss/base_moduls.py:197-198 | the centre has one coordinate per embedding dimension |
| EmbedLoss.CenterScalesBack | models/seg/loss/base_moduls.py:197-198 | each coordinate of the centre, multiplied by `sum_pixel`, gives back the column sum |
| EmbedLoss.ColumnSumIsClassSum | models/seg/loss/base_moduls.py:196-197 | the summed selection is, coordinate by coordinate, the sum of the class's embeddings |
| EmbedLoss.CenterIsMean | models/seg/loss/base_moduls.py:196-199 | the centre of a non-empty class is that sum divided by its pixel count, the mean embedding of its pixels |
| EmbedLoss.EmptyClassCenterIsZero | models/seg/loss/base_moduls.py:181-194 | the centres of the classes in `mask_list` stay zero |
| EmbedLoss.CentersStep | models/seg/loss/base_moduls.py:191-199 | visiting class i writes that class's centre into row i, which for an empty class is the zero row already there |
| EmbedLoss.PullTerm | models/seg/loss/base_moduls.py:201-205 | a class's pull term is the cosine-embedding loss of the class centre repeated once per selected row against those rows, all labelled +1 (the arguments `EmbedLoss.ClassPass` builds); non-negative whenever that loss is |
| EmbedLoss.SimLoss | models/seg/loss/base_moduls.py:182-205 | `sim_loss` is non-negative for a non-negative cosine-embedding loss, and stays 0 while every visited class is empty |
| EmbedLoss.ClassPass | models/seg/loss/base_moduls.py:187-205 | one class pass reports an empty class exactly when the selection is empty, and otherwise yields that class's centre and pull term |
| EmbedLoss.VisitStep | models/seg/loss/base_moduls.py:187-205 | one visit appends class i to `mask_list` and changes nothing else when the class is empty; otherwise it leaves `mask_list` alone, writes the centre into row i and adds the pull term to `sim_loss` |
| EmbedLoss.ClassCenters | models/seg/loss/base_moduls.py:181-205 | the first loop yields exactly the empty-class list, every centre row, and the sum of the pull terms of the non-empty classes |
| EmbedLoss.PushPass | models/seg/loss/base_moduls.py:213-222 | `label` is +1 at i and -1 at every other class, and every row of `center_dual` equals `center_array[i]` |
| EmbedLoss.ClassesNotInExact | models/seg/loss/base_moduls.py:209-211 | the push loop visits each class not in `mask_list` exactly once, in increasing order |
| EmbedLoss.PushTerm | models/seg/loss/base_moduls.py:213-224 | a class's push term is the cosine-embedding loss of all centres against centre `i` repeated, labelled -1 except +1 at `i` (the arguments `EmbedLoss.PushPass` builds); non-negative whenever that loss is |
| EmbedLoss.DiffLoss | models/seg/loss/base_moduls.py:207-224 | `diff_loss` starts at 0 and is non-negative for a non-negative cosine-embedding loss |
| EmbedLoss.DiffLossStep | models/seg/loss/base_moduls.py:209-224 | visiting class i adds its push term to `diff_loss` when i is not in `mask_list`, and nothing when it is |
| EmbedLoss.PushLoss | models/seg/loss/base_moduls.py:207-224 | `diff_loss` is the sum, in class order, of the push terms of the classes not in `mask_list` |
| EmbedLoss.EmbedForward | models/seg/loss/base_moduls.py:179-228 | the loss is the push terms over the classes not in `mask_list` plus the pull terms of the non-empty classes |
| EmbedLoss.PushedClassesArePresent | models/seg/loss/base_moduls.py:185-224 | with embeddings of positive dimension, push terms are taken for exactly the classes some pixel carries |
| EmbedLoss.OnlyClassZeroPushesOnce | models/seg/loss/base_moduls.py:185-224 | on a map labelled 0 everywhere, the push loop runs once, for class 0 |
| OhemLoss.MinKept | models/seg/loss/base_moduls.py:48 | `min_kept` is at least 1 and at least the configured value, and it is one of the two |
| OhemLoss.Gather | models/seg/loss/base_moduls.py:75-77 | after the remap, the gather yields the true-class probability of every non-ignored pixel |
| OhemLoss.Keep | models/seg/loss/base_moduls.py:78-79 | masking keeps at most every pixel, and keeps every pixel exactly when none carries the ignore label |
| OhemLoss.KeepMembers | models/seg/loss/base_moduls.py:78-83 | the masked pixels are exactly the non-ignored ones, each with its own probability and its own loss |
| OhemLoss.KeepIgnoresIgnored | models/seg/loss/base_moduls.py:76-78 | what ignored pixels carry, including the class-0 probability that the remap makes the gather read, never reaches the masked values |
| OhemLoss.SortByProb | models/seg/loss/base_moduls.py:79-83 | the sort yields an ascending permutation of the kept (probability, loss) pairs |
| OhemLoss.AscendingOrdersAgree | models/seg/loss/base_moduls.py:79 | any two ascending orders of the same pixels agree on the probability at every rank |
| OhemLoss.AnySortAgrees | models/seg/loss/base_moduls.py:79-84 | any ascending order gives the same threshold and the same multiset of selected losses, whatever the sort does with ties |
| OhemLoss.SortDistinctIsStrict | models/seg/loss/base_moduls.py:79 | with pairwise-distinct probabilities, the sorted order is strictly ascending |
| OhemLoss.CandidateThreshold | models/seg/loss/base_moduls.py:80 | with no kept pixel the candidate is 0.0; on an ascending order it is at or above every probability up to rank `min(min_kept, n-1)` and at or below every later one |
| OhemLoss.Rank | models/seg/loss/base_moduls.py:80 | for n > 0, `min(min_kept, n-1)` is a valid index and is one of its two arguments |
| OhemLoss.Threshold | models/seg/loss/base_moduls.py:80-81 | the effective threshold is at least `thresh` and at least the candidate, and it is one of the two |
| OhemLoss.SelectBelow | models/seg/loss/base_moduls.py:84 | the selection has at most one loss per sorted pixel |
| OhemLoss.SelectAllOrNone | models/seg/loss/base_moduls.py:84 | every loss is selected exactly when all probabilities are below the threshold, and none exactly when all are at or above it |
| OhemLoss.SelectionIsPrefix | models/seg/loss/base_moduls.py:84 | on the ascending order, the selection is the losses of a prefix below the threshold, and every later pixel is at or above it |
| OhemLoss.SelectPermutation | models/seg/loss/base_moduls.py:83-84 | reordering the pixels does not change the multiset of selected losses |
| OhemLoss.KeepThenSelect | models/seg/loss/base_moduls.py:78-84 | masking then selecting yields the losses of the non-ignored pixels below the threshold, in pixel order |
| OhemLoss.HardSelection | models/seg/loss/base_moduls.py:78-84 | the selected losses, as a multiset, are exactly the losses of non-ignored pixels below the threshold |
| OhemLoss.SelectsAtLeastRank | models/seg/loss/base_moduls.py:79-84 | on an ascending order whose pixel just below rank `min(min_kept, n-1)` is strictly below the candidate, at least that many pixels are selected, and exactly that many when the candidate reaches `thresh` |
| OhemLoss.StrictSeparatesRank | models/seg/loss/base_moduls.py:79-84 | pairwise-distinct ascending probabilities separate the rank `min(min_kept, n-1)` from the pixel below it |
| OhemLoss.SelectsRankIffSeparated | models/seg/loss/base_moduls.py:79-84 | when the candidate reaches `thresh`, exactly `min(min_kept, n-1)` pixels are selected if and only if the pixel below that rank is strictly below the candidate |
| OhemLoss.BelowFloorSelectsBeyondRank | models/seg/loss/base_moduls.py:79-84 | when the candidate is below `thresh`, the threshold is `thresh` and more than `min(min_kept, n-1)` pixels are selected, whatever the ties |
| OhemLoss.ReachesRankIff | models/seg/loss/base_moduls.py:79-84 | at least `min(min_kept, n-1)` pixels are selected if and only if the candidate is below `thresh` or the pixel below the rank is strictly below the candidate |
| OhemLoss.AllTiedSelectsNothing | models/seg/loss/base_moduls.py:80-84 | when all kept probabilities tie at or above `thresh`, the threshold is that probability and nothing is selected |
| OhemLoss.KeepDistinct | models/seg/loss/base_moduls.py:78-79 | distinct probabilities among the non-ignored pixels give a strictly ascending sorted order |
| OhemLoss.CertainRestThreshold | models/seg/loss/base_moduls.py:79-84 | with exactly `min_kept` pixels below `thresh < 1` and the rest at 1.0, the threshold is 1.0 and `min_kept` pixels are selected |
| OhemLoss.Sum | models/seg/loss/base_moduls.py:86 | the sum of non-negative losses is non-negative |
| OhemLoss.SumPermutation | models/seg/loss/base_moduls.py:85-88 | the sum of the selected losses does not depend on their order |
| OhemLoss.Reduce | models/seg/loss/base_moduls.py:85-90 | `sum`, or an empty selection, gives the sum, so an empty selection gives 0; `mean` gives the mean; any other string is an error exactly when the selection is non-empty |
| OhemLoss.ReduceOrderFree | models/seg/loss/base_moduls.py:85-90 | the reduction depends only on the multiset of selected losses |
| OhemLoss.AllIgnored | models/seg/loss/base_moduls.py:78-90 | with every pixel ignored, the threshold is `max(0.0, thresh)`, nothing is selected and every reduction returns 0 |
| OhemLoss.OhemForward | models/seg/loss/base_moduls.py:65-90 | the loss is the reduction of the losses of the non-ignored pixels whose true-class probability is below the threshold, in pixel order |

## Left out

- Softmax, cross-entropy, BCE, sigmoid and the cosine-embedding loss. These
  are floating-point library numerics. Probabilities (`probOut`) and
  per-pixel losses are inputs. The cosine-embedding loss is an uninterpreted
  function parameter.
- `BaseFocalLoss`. It is a closed-form floating-point formula with no
  discrete logic.
- `BaseCELoss.forward` beyond its call to `_scale_target`. The rest is a
  thin wrapper over the library's cross-entropy.
- The BCE branch of `BaseEncLoss.forward` for two-dimensional targets. It
  is pure library numerics.
- The configuration lookups and defaults. They are external. Their values
  (`num_classes`, `grid_size`, `ignore_label`, `ohem_minkeep`,
  `ohem_thresh`, the reduction string) are parameters.
- Device placement, `requires_grad` and autograd.
- Floating-point effects, all modelled in exact arithmetic:
  - Labels are exact integers. The code casts them to 32-bit floats: to
    float and back in `_scale_target`, with `.float()` before `histc` in
    `_get_batch_label_vector`, and into the float tensor `targets_cp` in
    `get_mask`. These casts are the identity only for labels of magnitude at
    most 2^24. Larger labels are rounded (16777217 becomes 16777216), and
    the model does not capture that rounding.
  - Exact integer division replaces the library's floating-point scale
    factor in nearest resampling.
  - `histc` with `num_classes == 1` (its `min == max` case) is excluded by
    requiring `num_classes >= 2`.
- Zero-sized inputs or outputs of the resampling are excluded: the
  resampling functions require every size to be at least 1.
- EncLoss.PadAmount, EncLoss.CellsAlong, EncLoss.BatchLabelVector,
  EncLoss.EncodingTarget: a grid size of at least 1 is assumed (`g >= 1`).
  The code's failure paths for other grid sizes are not modelled:
  - the default `grid_size=None` raises a TypeError at `h % grid_size`;
  - a grid size of 0 raises ZeroDivisionError there;
  - a negative grid size gives a negative pad, and `view` then fails.
- OhemLoss.SumPermutation: sums are exact reals, so the order of summation
  does not matter. The library's floating-point sum of the sorted selection
  may differ in rounding from a sum in pixel order.
  `OhemLoss.ReduceOrderFree` and `OhemLoss.OhemForward` rely on this.
- OhemLoss.SortByProb: the library's sort is not stable. The model uses one
  fixed insertion sort, and `OhemLoss.AnySortAgrees` shows that the
  threshold and the selected losses are the same for every ascending order.
- OhemLoss.SelectsAtLeastRank: covers only the case where the pixel below the
  rank is strictly below the candidate. The below-floor case is
  `OhemLoss.BelowFloorSelectsBeyondRank`, and `OhemLoss.ReachesRankIff` gives
  the exact condition.
- EmbedLoss: pixels are a flat, row-major sequence, each with its own
  embedding vector. This reads the library's `transpose`, `repeat`,
  `view` and `permute` of `inputs[mask]` as one embedding row per selected
  pixel. The batch, height and width of the embedding targets are not
  modelled separately, because masking is elementwise.
- EmbedLoss.GetMask: `targets_cp` in `get_mask` is a 32-bit float tensor.
  Integer labels are used here, which agrees with the code only for labels
  of magnitude at most 2^24 (see the float casts above).
- OhemLoss.OhemForward: the gather's index requirement is stated only on the
  labels of the rescaled targets (non-ignored labels index `probOut`). This
  is what the gather demands.
