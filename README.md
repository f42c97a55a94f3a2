# Interaction-log preprocessing for the interest model, in Dafny

This project models the preprocessing pipeline of the interest model in
`interest/code/preprocess.py`. The pipeline turns a time-ordered table of
user–item interactions into fixed-shape training rows. It models each stage
as the source writes it and proves what the stage promises:

- **Category rule** (`Category`): an item keeps the second entry of its
  category list, else its only entry, else nothing.
- **Frequency-rank encoder** (`Encoder`): distinct observed values are ranked
  most frequent first and replaced by their rank. With padding the codes run
  from 1. Missing values get 0.
- **Per-user grouping** (`Grouping`): a groupby on the user column. A group is
  the user's rows in row order.
- **History windower** (`History`): for every event, the last 128 values of
  the user's sequence up to and including the event, left-padded with zeros.
- **Range counter** (`Ranges`): for an event at time `t`, the number of the
  same user's events with timestamps in the closed interval `[t-k, t]`, minus
  one. It is computed for a mid lookback `k_m` and a short lookback `k_s`.
- **Time bucket** (`TimeBucket`): `unit_time`, the offset from the earliest
  timestamp floor-divided by the bucket width.
- **Negative sampler** (`Negatives`): the item universe `1..max item code`.
  The cached form draws from `universe − history − {positive}`. The
  vectorised form fills a zero matrix row by row.
- **Split** (`Split`): each user's rows are cut into `iloc[:-2]`,
  `iloc[-2:-1]` and `iloc[-1:]`. Each test candidate list gets its positive
  item appended.
- **Dataset container** (`Dataset`): `MakeDataset` with its length and its
  index operation.
- **Range alignment** (`Alignment`): how the per-user range counts are
  attached to the table (see Findings).
- **Cross-stage facts** (`Pipeline`): what the encoded item and category
  columns mean for the universe and for missing categories.

Randomness is not modelled as a generator. A random draw is any choice of
distinct items from the pool (`:|` in the sampling methods), and every
property is proved for every such choice.

Facts about the code that the model makes explicit:

- Range counts use a closed interval. For timestamps 0, 10, 20, 30, 40 ms
  and a 25 ms lookback, the label slice at line 50 gives mid counts
  `[0,1,2,2,2]`: the interval `[-5, 20]` of the third event holds three
  events (`Ranges.FiveEventRanges`).
- The negatives of an event exclude only the item set of its 128-wide
  history window (lines 82 and 90), which holds the event's own item and,
  while the window is not yet full (fewer than 127 earlier events of the
  user), the padding 0. Items older than the window can still be drawn.
- Range counts count by timestamp value. Events tied with the current one
  count even when they come later (`Ranges.TiedEventsCountEachOther`).
- `value_counts` fixes no order among equally frequent values. Every encoder
  property is proved for any ranking with non-increasing counts
  (`Encoder.IsRanking`); `Encoder.Ranking` picks the first-appearance order.

## Model

| member | source | states |
|---|---|---|
| `Category.Project` | interest/code/preprocess.py:21 | A list with ≥2 entries gives its second entry, a one-entry list its only entry, an empty list nothing; none exactly when the list is empty |
| `Encoder.Ranking` | interest/code/preprocess.py:27 | The frequency table lists every observed value exactly once, nothing else, with counts non-increasing |
| `Encoder.FirstAppearance` | interest/code/preprocess.py:27 | The distinct observed values without repetition, exactly the observed set |
| `Encoder.SortByCount` | interest/code/preprocess.py:27 | Sorting by descending count is a permutation, keeps values distinct, and leaves counts non-increasing |
| `Encoder.RankingSize` | interest/code/preprocess.py:27-31 | The number of codes d equals the number of distinct observed values |
| `Encoder.Encode` | interest/code/preprocess.py:26-33 | One code per row: present entries get 1..d with padding and 0..d-1 without, missing entries get 0, each the row's code under the column's ranking |
| `Encoder.CodeRange` | interest/code/preprocess.py:28-32 | Observed values get codes 1..d with padding and 0..d-1 without; missing and unobserved values get 0 |
| `Encoder.CodeOfRank` | interest/code/preprocess.py:29-31 | The value at rank k gets code k (k+1 with padding), so every code of the range is used |
| `Encoder.CodeInjective` | interest/code/preprocess.py:29-32 | Distinct observed values get distinct codes; with padding a missing value is distinct from all of them |
| `Encoder.MoreFrequentSmallerCode` | interest/code/preprocess.py:27-31 | A strictly more frequent value gets a strictly smaller code |
| `Encoder.UnpaddedMissingSharesCodeZero` | interest/code/preprocess.py:31-32 | In any column, without padding, a missing entry and an entry holding the value ranked first both get code 0 (among equally frequent top values, the model ranks the one that appears first) |
| `Encoder.UnpaddedMissingExample` | interest/code/preprocess.py:31-32 | The column [5, missing] encodes to [0, 0] without padding |
| `Grouping.Group` | interest/code/preprocess.py:117 | A user's group has one entry per row carrying that user |
| `Grouping.RowInGroup` | interest/code/preprocess.py:117 | Row r sits at its position in its user's group, and the group up to it is the group of rows 0..r |
| `Grouping.GroupOfPrefix` | interest/code/preprocess.py:117 | The group of a prefix of the table is a prefix of the group |
| `Grouping.ConcatGroupsPermutes` | interest/code/preprocess.py:138-140 | Concatenating all groups in group order is a permutation of the table's rows |
| `History.Window` | interest/code/preprocess.py:39-40 | The window has width L, its last slot is the event, slot j is pad or the value (L-1)-j positions back |
| `History.GetHistory` | interest/code/preprocess.py:35-41 | One window per event, each of width 128 and ending with the event's own value |
| `History.WindowOfPast` | interest/code/preprocess.py:39 | Values after the event do not change its window |
| `History.HistoryColumn` | interest/code/preprocess.py:117-120 | One window per row, of width 128, ending with the row's value; row r's window is the window over rows 0..r of its own user only |
| `History.OwnHistory` | interest/code/preprocess.py:117 | The window taken at row r's position in its whole group equals the window over r's user's rows 0..r |
| `History.FiveEventWindows` | interest/code/preprocess.py:38-40 | Item codes 3,7,3,9,2 with width 3 give windows [0,0,3],[0,3,7],[3,7,3],[7,3,9],[3,9,2] |
| `Ranges.RangeCount` | interest/code/preprocess.py:50-51 | One event's count is below the group's length, and non-negative for a non-negative lookback |
| `Ranges.RangesOf` | interest/code/preprocess.py:50-51 | One count per event of the group, each below the group's length and non-negative for a non-negative lookback |
| `Ranges.CountInWindow` | interest/code/preprocess.py:50 | The number of timestamps in the closed interval [lo, hi]; on a group in non-decreasing time order, the size of the label slice [lo, hi] of the time index |
| `Ranges.CalculateRanges` | interest/code/preprocess.py:43-54 | mid_len and short_len per event of a group in non-decreasing time order: interval count minus one, non-negative for non-negative lookbacks, short ≤ mid when k_s ≤ k_m |
| `Ranges.SelfCounted` | interest/code/preprocess.py:50-51 | An event inside the interval makes the count at least one |
| `Ranges.WiderWindowCountsMore` | interest/code/preprocess.py:50-51 | A longer lookback never gives a smaller count |
| `Ranges.CountWithinAppend` | interest/code/preprocess.py:50 | The interval count of a concatenation is the sum of the counts |
| `Ranges.NoLaterEventCounted` | interest/code/preprocess.py:50 | Without tied timestamps an event counts only earlier events: the count is at most i, and 0 for the first event |
| `Ranges.TiedEventsCountEachOther` | interest/code/preprocess.py:50 | n simultaneous events each count n-1: ties count by value and the count is not capped at 128 |
| `Ranges.FiveEventRanges` | interest/code/preprocess.py:50-51 | Timestamps 0..40 ms, lookbacks 25 and 15 ms, give mid [0,1,2,2,2] and short [0,1,1,1,1] |
| `TimeBucket.FloorDiv` | interest/code/preprocess.py:115 | Python floor division: the quotient q with b·q ≤ a < b·q + b (mirrored for b < 0) |
| `TimeBucket.MinOf` | interest/code/preprocess.py:114 | The earliest timestamp is in the column and no later than any row |
| `TimeBucket.UnitTime` | interest/code/preprocess.py:114-115 | For a positive width, each row's bucket u ≥ 0 satisfies width·u ≤ t − min < width·(u+1) |
| `TimeBucket.UnitTimeMonotone` | interest/code/preprocess.py:114-115 | The earliest rows are in bucket 0, and a later timestamp never gets an earlier bucket |
| `Negatives.MaxOf` | interest/code/preprocess.py:111 | The largest item code is a code of the column and bounds every code |
| `Negatives.Universe` | interest/code/preprocess.py:111-112 | The universe holds exactly the integers from 1 to some item code: it excludes 0 and holds every positive code; an empty table has none |
| `Negatives.DrawDistinct` | interest/code/preprocess.py:61 | A draw of k items from a pool of at least k: k distinct pool members |
| `Negatives.WholePool` | interest/code/preprocess.py:63 | As many distinct pool members as the pool has are the whole pool |
| `Negatives.SampleCached` | interest/code/preprocess.py:56-64 | Distinct negatives, none in the history and none the positive; min(num_samples, \|pool\|) of them, and the whole pool when it is short |
| `Negatives.Filter` | interest/code/preprocess.py:90-91 | The masked universe keeps exactly the non-excluded ids, without repetition |
| `Negatives.SampleRow` | interest/code/preprocess.py:86-97 | One row's draw: min(num_samples, \|eligible\|) distinct eligible items, the whole pool when short |
| `Negatives.FilledRow` | interest/code/preprocess.py:99 | A row holding a valid draw and zeros after it meets the row shape |
| `Negatives.FillRow` | interest/code/preprocess.py:99 | Writing a draw into a row changes only that row's leading slice |
| `Negatives.SampleInto` | interest/code/preprocess.py:86-99 | One loop iteration: a zero row receives a valid draw for its event, and no other row changes |
| `Negatives.SampleVectorized` | interest/code/preprocess.py:74-101 | One row per event of the `tolist()` result, each exactly num_samples wide: distinct eligible items first, zeros after, the whole pool when short |
| `Split.SliceBound` | interest/code/preprocess.py:138-140 | A slice bound counts negative values from the end and is clamped to 0..n: above n gives n, below -n gives 0 |
| `Split.Train` | interest/code/preprocess.py:138 | `iloc[:-2]`: all but the last two rows, nothing for one or two rows |
| `Split.Valid` | interest/code/preprocess.py:139 | `iloc[-2:-1]`: the second-to-last row, nothing for fewer than two rows |
| `Split.Test` | interest/code/preprocess.py:140 | `iloc[-1:]`: the last row, nothing for no rows |
| `Split.SplitTable` | interest/code/preprocess.py:138-140 | The three tables together are as long as the concatenated groups, and test has at most one row per user |
| `Split.SplitPartition` | interest/code/preprocess.py:138-140 | For n ≥ 1 rows: train ++ valid ++ test is the rows in order, test is the last row, valid has min(n-1,1) rows, train max(n-2,0) |
| `Split.SplitTableComplete` | interest/code/preprocess.py:138-140 | Over all users, the three tables together are a permutation of the table, and test has one row per user |
| `Split.SplitTableOfGroups` | interest/code/preprocess.py:138-140 | The three tables together hold exactly the concatenated groups' rows |
| `Split.GroupOfListedUser` | interest/code/preprocess.py:138 | A user of the table has at least one row in its group |
| `Split.TestCandidates` | interest/code/preprocess.py:146 | Each candidate list is the negatives followed by the positive item |
| `Split.TestCandidatesRankPositiveOnce` | interest/code/preprocess.py:145-146 | A test candidate list has test_num_samples+1 entries, ends with the positive, and holds it nowhere else |
| `Dataset.Position` | interest/code/preprocess.py:176-188 | A valid Python index denotes a position below the length, itself or counted from the end |
| `Dataset.MakeDataset.GetItem` | interest/code/preprocess.py:176-195 | A record exists exactly when every column has the index; it holds neg_items exactly when they were supplied |
| `Dataset.LenCountsRecords` | interest/code/preprocess.py:173-195 | On aligned columns, indexes 0..len-1 give the fields of that row, index len fails, and i − len is the same record |
| `Dataset.RecordShapes` | interest/code/preprocess.py:157-171 | A fixed width of the item, category, conformity and quality histories, and of the supplied negative lists, carries over to every record |
| `Alignment.GroupedRanges` | interest/code/preprocess.py:127 | The per-user range counts in group order have as many entries as the concatenated groups |
| `Alignment.RangeColumnAsWritten` | interest/code/preprocess.py:127-130 | Pairing by position gives one count per row |
| `Alignment.RangeColumn` | interest/code/preprocess.py:127-130 | Row r gets its user's rows in [t-k, t] anywhere in the table, minus one |
| `Alignment.OwnRangeCount` | interest/code/preprocess.py:46-51 | The count at row r's position in its own group equals its user's rows of the table in [t-k, t], minus one |
| `Alignment.GroupCount` | interest/code/preprocess.py:50 | Counting inside a user's group equals counting that user's rows of the table |
| `Alignment.RangeColumnCountsOwnUser` | interest/code/preprocess.py:46-51 | A row's own count is non-negative for k ≥ 0 and never larger for a shorter lookback |
| `Alignment.MisalignedWhenNotGroupedByUser` | interest/code/preprocess.py:127-130 | Users [2,1,1] at time 0: positional pairing gives row 0 the count 1, its own count is 0 |
| `Pipeline.EmptyCategoryListEncodesToZero` | interest/code/preprocess.py:106 | Over the column the category rule derives from the category lists, with padding, a category code is 0 exactly when the item's category list is empty, and at most the number of categories otherwise |
| `Pipeline.UniverseIsEncodedItems` | interest/code/preprocess.py:105-112 | With every item present, the universe is exactly the set of item codes in use: 1..d, d distinct items, never 0 |
| `Pipeline.RowWithCode` | interest/code/preprocess.py:105 | Every code 1..d is carried by some row |
| `Pipeline.MaxPaddedCodeIsCount` | interest/code/preprocess.py:111 | The largest padded item code is the number of distinct items |

## Left out

- Loading and renaming in `load_dataset` (pickle, column selection, renames) are I/O. Only the category rule is modelled.
- The `lru_cache` memoisation of the cached sampler is left out. `Negatives.SampleCached` is the uncached function. A cache hit replays an earlier draw, which meets the same contract.
- `random.sample` and `np.random.choice` are modelled as an arbitrary choice of distinct pool items, so a seed's reproducibility is not modelled. The order of `list()` of a set is also an arbitrary choice.
- Timestamps are integer milliseconds. Datetime conversion and the `set_index`/`reset_index` index mechanics are not modelled.
- `Ranges.CalculateRanges` and `Ranges.CountInWindow` count timestamps by value in any row order, and agree with the label slice at line 50 only when each user's timestamps are non-decreasing in row order; nothing in the pipeline sorts the table by time. On a non-monotonic time index pandas raises `KeyError` for a slice bound that is not in the index. On a decreasing index it raises nothing and the slice `[t-k, t]` is empty for k > 0, so the source returns −1 for every such event (timestamps `[40, 30]` in row order with k = 15 give `[-1, -1]`, where the model gives `[1, 0]`), and the non-negativity in `Ranges.CalculateRanges` does not hold for the source there; the same goes for the per-row counts of `Alignment.RangeColumn`. Neither behaviour is modelled.
- Float columns (`conformity`, `quality`) are modelled as `real`, so float32 rounding is not modelled. `History.GetHistory` is generic in the value type. The `groupby().last()` dictionaries and `item_to_cat_dict` are not modelled.
- Tensor construction in `MakeDataset.__init__` and the dtypes (int64, float32, int32 for the counts, int32 for the negative matrix) are left out: integer widths are unbounded.
- `create_datasets` only calls the `MakeDataset` constructor three times and is not modelled separately.
- `Dataset.MakeDataset.Len` has no contract of its own; `Dataset.LenCountsRecords` states what the length means.
- `TimeBucket.UnitTime`: a bucket width of 0 is excluded by its requires. pandas yields non-integer values there, which the model cannot represent.
- `Encoder.Ranking`: pandas does not fix the order of equally frequent values. The model picks first appearance; the code properties hold for any order.
- `Grouping` takes the group order (pandas sorts the user keys) as a parameter. The parameter must list each user once; sortedness is not needed by any property.
- `Split.SplitTable` splits generic row values rather than the concrete feature columns, and leaves out the `reset_index` plumbing and the column selection before the split.
- `History.GetHistory` takes the pad value as a parameter: `np.pad` pads with the dtype's zero.
- The unused thread-pool import, the progress bars and the prints are left out.

## Findings

| source | as written | input that shows it | evidently intended | confidence | as-written member | corrected member |
|---|---|---|---|---|---|---|
| interest/code/preprocess.py:127-130 | The per-user range counts come back in group order (sorted users). After both indexes are reset, `pd.concat(axis=1)` pairs them with the table's rows by position. | Users `[2, 1, 1]`, all at time 0, lookback 0: user 1's counts `[1, 1]` come first, so row 0 (user 2, own count 0) receives 1 | Each row receives the counts of its own event, computed within its own user's group | medium (not executed) | `Alignment.RangeColumnAsWritten` (shown by `Alignment.MisalignedWhenNotGroupedByUser`) | `Alignment.RangeColumn` (its own contract, with `Alignment.RangeColumnCountsOwnUser`) |
