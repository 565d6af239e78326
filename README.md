# Thermal people counter: tracker, gate lines and foreground mask

This project models the counting pipeline of `gate.py` and proves properties of the model. The pipeline works on a 24 x 32 thermal camera frame:

- it thresholds the frame against its most frequent temperature;
- it follows the warm blobs' centroids from frame to frame with a centroid tracker;
- it counts each tracked person once as an entry and once as an exit, when the last move of their track crosses a configured gate line.

The model has these parts, one module each:

- `Geometry` holds the centroid type and squared integer distance.
- `TrackRegistry` is the tracker's bookkeeping as a value. It holds the id counter and the three dictionaries `objects`, `disappeared` and `track_history`. It also defines the single-track operations `register`, `deregister` and "one missed frame", and the loops over them.
- `Assignment` holds `argmin` and a stable `argsort`, proved sorted and a permutation.
- `TrackerSpec` is `update` as a function of the old state and the inputs. This covers:
  - the empty-tracker branch and the empty-input branch;
  - the greedy nearest-neighbour matching;
  - aging of unmatched tracks and registration of unmatched inputs.
  
  The lemmas state what `update` does to each track and each input.
- `CentroidTracking` is the `CentroidTracker` class:
  - its fields are the counter and the three dictionaries;
  - its methods `Register`, `Deregister` and `Update` change them in place, with the loops of the original;
  - each method is proved to leave the fields equal to the corresponding function of `TrackRegistry` or `TrackerSpec` applied to the old fields.
- `Crossing` holds `crossed_line` and its geometric reading.
- `GateCounting` is the exactly-once counting step, lifted into a class. The class `GateCounter` holds the two counters and the two sets of counted ids. `Evaluate` walks the tracker's histories and is proved equal to a fold whose effect is characterised: every crosser is recorded, each counter grows by the number of newly recorded ids, and a second evaluation counts nothing.
- `Foreground` is the mode, threshold and mask part of `detect_blobs`. It covers:
  - round-half-to-even;
  - `bincount` and `argmax`;
  - the mode, which is proved to be the smallest most frequent value;
  - the mask, with its two error cases.

Modelling choices:

- Centroids are integer pairs. `cdist` is replaced by squared integer distance. Square root is monotone, so the argmin and the row order it gives are the same.
- Python's `OrderedDict` key order is ascending id order. Ids are handed out increasing, and reassigning an existing key keeps its place.
- Iteration over the sets `unused_rows` and `unused_cols` is taken to be ascending. CPython gives this order only while every member is below the set's hash-table size; see "## Left out".
- `argsort` breaks ties between equal minimum distances by the lower row first.
- The gate coordinate is a `real`. The integer centroid components are compared with it exactly.

## Model

| member | source | states |
|---|---|---|
| Geometry.SqDist | gate.py:78 | the distance between two centroids is zero exactly when they coincide |
| TrackRegistry.Initial | gate.py:40-45 | a new tracker has no tracks, next id 0, and satisfies the registry and history invariants |
| TrackRegistry.Register | gate.py:47-51 | registering keeps the invariant, uses a fresh id (the old next id, not in use), adds exactly that key and advances the next id by one |
| TrackRegistry.RegisterEffect | gate.py:47-51 | the new track holds the centroid, disappeared count 0 and history `[c]`; every existing track is unchanged |
| TrackRegistry.RegisterKeeps | gate.py:47-51 | registering changes no existing track |
| TrackRegistry.Deregister | gate.py:53-56 | deregistering keeps the invariant, removes exactly that key from all three dictionaries and leaves the next id alone |
| TrackRegistry.DeregisterEffect | gate.py:53-56 | every other track is unchanged by deregistration |
| TrackRegistry.Age | gate.py:72-74 | one missed frame keeps the invariant and removes the track iff its raised count exceeds the limit |
| TrackRegistry.AgeEffect | gate.py:72-74 | a surviving aged track has its count raised by exactly one and keeps its centroid and history; other tracks are unchanged |
| TrackRegistry.AgeKeeps | gate.py:72-74 | aging one track changes no other track |
| TrackRegistry.RegisterAll | gate.py:60-61 | registering a list keeps the invariant and advances the next id by its length |
| TrackRegistry.RegisterAllKeys | gate.py:60-61 | after registering a list the keys are the old keys plus exactly the ids from the old next id up to the new one |
| TrackRegistry.RegisterAllTrack | gate.py:60-61 | the i-th registered centroid gets id next+i, which was unused, with count 0 and a one-point history |
| TrackRegistry.RegisterAllNew | gate.py:60-61 | every centroid of the list becomes a fresh track with consecutive ids in list order |
| TrackRegistry.RegisterAllKeeps | gate.py:60-61 | registering a list changes no existing track |
| TrackRegistry.AgeAll | gate.py:71-74 | aging a list of distinct tracks keeps the invariant and the next id, removes only listed tracks |
| TrackRegistry.AgeAllStep | gate.py:71-74 | one more turn of the aging loop is one more missed frame applied to the state so far |
| TrackRegistry.AgeAllKeeps | gate.py:71-74 | tracks not in the list are unchanged by the aging loop |
| TrackRegistry.AgeAllTrack | gate.py:71-74 | each listed track survives iff its old count plus one is within the limit, and then has count plus one and the same centroid and history |
| TrackRegistry.AgeAllEffect | gate.py:71-74 | the same for all listed tracks at once |
| TrackRegistry.RegisterHistories | gate.py:47-51 | registering keeps every history non-empty and ending at the track's centroid |
| TrackRegistry.CountHistories | gate.py:72 | changing a disappeared count keeps both invariants |
| TrackRegistry.AgeHistories | gate.py:72-74 | aging keeps the history invariant |
| TrackRegistry.RegisterAllHistories | gate.py:60-61 | the registering loop keeps the history invariant |
| TrackRegistry.AgeAllHistories | gate.py:71-74 | the aging loop keeps the history invariant |
| Assignment.ArgMin | gate.py:81 | argmin returns an index holding the minimum, and the first such index |
| Assignment.Insert | gate.py:80 | inserting into the sorted index list adds exactly that one index |
| Assignment.InsertOrdered | gate.py:80 | insertion keeps the index list sorted by key, ties by lower index |
| Assignment.ArgSortPrefix | gate.py:80 | sorting the first n indices gives n indices below n |
| Assignment.ArgSortPrefixOrdered | gate.py:80 | the sorted prefix is ordered by key, ties by lower index |
| Assignment.ArgSortPrefixPermutation | gate.py:80 | the sorted prefix is a permutation of 0..n-1 |
| Assignment.ArgSort | gate.py:80 | argsort lists one valid index per key |
| Assignment.ArgSortCorrect | gate.py:80 | argsort returns a permutation of the indices ordered by key, ties by lower index |
| Assignment.ArgSortDistinct | gate.py:80 | argsort never lists an index twice |
| Assignment.ArgSortCovers | gate.py:80 | argsort lists every index |
| TrackerSpec.Ascending | gate.py:64 | the ascending listing of a set holds only members below the bound |
| TrackerSpec.AscendingMembers | gate.py:98-99 | iterating a set of small ids visits exactly its members below the bound, in increasing order |
| TrackerSpec.ObjectIds | gate.py:64 | the key list holds exactly the tracked ids, strictly increasing |
| TrackerSpec.AscendingAgree | gate.py:64 | the key list depends only on which ids are present |
| TrackerSpec.RegisterOrder | gate.py:48 | registering appends the new id at the end of the key order |
| TrackerSpec.Without | gate.py:54 | removing an id from a key list leaves a list without it, no longer than before |
| TrackerSpec.DeregisterOrder | gate.py:54 | deregistering removes the id from the key order and keeps the others' order |
| TrackerSpec.AscendingWithout | gate.py:54 | the ascending listing of a set minus an id is the listing with the id removed |
| TrackerSpec.Select | gate.py:81 | indexing a list by an index list picks the indexed elements in order |
| TrackerSpec.Centroids | gate.py:65 | one centroid per listed id |
| TrackerSpec.DistRow | gate.py:78 | one distance per input |
| TrackerSpec.Nearest | gate.py:81 | the nearest input is a valid column |
| TrackerSpec.NearestIsFirstNearest | gate.py:81 | the chosen column is at minimal distance and no earlier column is as near |
| TrackerSpec.MinDists | gate.py:80 | one minimum distance per track |
| TrackerSpec.MinDistsAt | gate.py:80 | each row's minimum is its distance to its nearest input and at most its distance to every input |
| TrackerSpec.Rows | gate.py:80 | the row order lists valid rows, one per track |
| TrackerSpec.RowsNearestFirst | gate.py:80 | rows come in order of their minimum distance, ties by lower row |
| TrackerSpec.Cols | gate.py:81 | each row in order is paired with a valid column |
| TrackerSpec.MatchRowsPermutation | gate.py:80 | the row order visits every track exactly once |
| TrackerSpec.Assign | gate.py:90-93 | taking a pair keeps the invariant, the key set and the next id |
| TrackerSpec.AssignEffect | gate.py:90-93 | the taken track holds the input, the input is appended to its history and its count is 0; the history invariant is kept |
| TrackerSpec.AssignKeeps | gate.py:90-93 | taking a pair changes no other track |
| TrackerSpec.MatchStep | gate.py:88-95 | one turn of the matching loop keeps the invariant, the key set and the next id |
| TrackerSpec.Greedy | gate.py:87-95 | the whole matching loop keeps the invariant, the key set and the next id |
| TrackerSpec.GreedyStep | gate.py:87-95 | one more pair processed is one more matching step applied to the state so far |
| TrackerSpec.StepUsed | gate.py:88-95 | a step adds at most its own row and column, and only both together |
| TrackerSpec.StepKeeps | gate.py:88-95 | a step changes no track other than its row's |
| TrackerSpec.StepTakes | gate.py:88-95 | a step on an unused row takes the pair iff its column is unused, and then assigns the input to the row's track |
| TrackerSpec.GreedyUsed | gate.py:83-95 | every used row and column comes from the pairs, and as many rows as columns are used: each track and each input is consumed at most once |
| TrackerSpec.GreedyColsUsed | gate.py:83-95 | with distinct rows, every column that appears in a pair ends up used |
| TrackerSpec.GreedyColsUsedEarlier | gate.py:83-95 | the same for a pair before the last one |
| TrackerSpec.GreedyColsUsedLast | gate.py:83-95 | the same for the last pair |
| TrackerSpec.LastRowFree | gate.py:88 | with distinct rows, a row is still unused when its pair is reached |
| TrackerSpec.GreedyKeeps | gate.py:83-95 | an unmatched track is left unchanged by the matching loop |
| TrackerSpec.GreedyPair | gate.py:83-95 | pair k is taken iff its column was not taken by an earlier pair, and a taken pair's track ends holding that input |
| TrackerSpec.GreedyPairEarlier | gate.py:83-95 | the same for a pair before the last one |
| TrackerSpec.GreedyPairLast | gate.py:83-95 | the same for the last pair |
| TrackerSpec.RangeSet | gate.py:98 | `set(range(n))` holds exactly the numbers below n |
| TrackerSpec.Unused | gate.py:98-99 | the unused indices are exactly the indices below n that are not used |
| TrackerSpec.UnusedMembers | gate.py:98-99 | the unused indices are exactly those below n not used, in increasing order |
| TrackerSpec.UnusedCount | gate.py:98 | there are n minus the number used of them |
| TrackerSpec.SelectIncreasing | gate.py:100 | the ids of the unused rows, in row order, are increasing |
| TrackerSpec.UnmatchedIds | gate.py:98-100 | the unmatched ids are tracked ids, increasing |
| TrackerSpec.UnmatchedInputs | gate.py:106-108 | the unmatched inputs are inputs, and there are as many as inputs minus used columns |
| TrackerSpec.MatchRows | gate.py:80 | the row order has one valid row per track |
| TrackerSpec.MatchCols | gate.py:81 | one valid column per row |
| TrackerSpec.MatchPhase | gate.py:83-95 | the matching phase keeps the invariant, the key set and the next id |
| TrackerSpec.AgeUnmatched | gate.py:97-103 | aging the unmatched tracks keeps the invariant and the next id |
| TrackerSpec.Finish | gate.py:97-108 | aging and registering after the matching keeps the invariant |
| TrackerSpec.UpdateMatching | gate.py:77-108 | the third branch of `update` keeps the invariant |
| TrackerSpec.Update | gate.py:58-110 | `update` keeps the registry invariant |
| TrackerSpec.UpdateHistories | gate.py:58-110 | `update` keeps every history non-empty and ending at the track's centroid |
| TrackerSpec.MatchingHistories | gate.py:77-108 | the third branch keeps the history invariant |
| TrackerSpec.GreedyHistories | gate.py:92 | the matching loop keeps the history invariant |
| TrackerSpec.UpdateIds | gate.py:58-110 | the next id never decreases, and every id after `update` was tracked before or is new |
| TrackerSpec.UpdateAll | gate.py:58-110 | a run of updates keeps the invariant |
| TrackerSpec.NeverReused | gate.py:51 | an id handed out and no longer tracked never comes back, over any run of updates |
| TrackerSpec.UpdateNoTracks | gate.py:59-62 | with no tracks, `update` registers every input in order under consecutive ids from the old next id, and nothing else |
| TrackerSpec.UpdateNoInputs | gate.py:70-75 | with no inputs, every track's count goes up by one, it is removed iff that exceeds the limit, survivors keep centroid and history, no new id |
| TrackerSpec.SameThenAged | gate.py:99-103 | an unchanged track later aged counts as aged from the start |
| TrackerSpec.FinishKeepsMatched | gate.py:97-108 | a matched track is untouched by the aging and registering loops |
| TrackerSpec.FinishAgesUnmatched | gate.py:97-103 | an unmatched track is aged once: removed iff over the limit, otherwise count plus one and same centroid and history |
| TrackerSpec.FinishNewAt | gate.py:105-108 | the i-th unused input becomes a fresh track with id next+i |
| TrackerSpec.FinishNew | gate.py:105-108 | every unused input becomes a fresh track, in column order, with consecutive ids |
| TrackerSpec.FinishCount | gate.py:105-108 | the next id grows by the number of unused inputs |
| TrackerSpec.UpdatePair | gate.py:83-103 | in `update`, pair k is taken iff its column was free, a taken pair's track holds the input with its history extended and count 0, and an untaken row's track is aged once |
| TrackerSpec.UpdateMatchingCount | gate.py:83-108 | matched rows equal matched columns, at most the inputs; the used columns are exactly the paired ones; matched inputs plus new tracks equal the number of inputs |
| TrackerSpec.UpdateMatchingNew | gate.py:105-108 | every unmatched input becomes a new track with consecutive ids in column order |
| CentroidTracking.CentroidTracker.constructor | gate.py:40-45 | a new tracker is empty with next id 0 and the given limit |
| CentroidTracking.CentroidTracker.Register | gate.py:47-51 | the fields become `TrackRegistry.Register` of the old fields, and the invariants hold |
| CentroidTracking.CentroidTracker.Deregister | gate.py:53-56 | the fields become `TrackRegistry.Deregister` of the old fields |
| CentroidTracking.CentroidTracker.MissFrame | gate.py:72-74 | the count is raised and the track deregistered over the limit: `TrackRegistry.Age` of the old fields |
| CentroidTracking.CentroidTracker.Update | gate.py:58-110 | the fields become `TrackerSpec.Update` of the old fields and the inputs, the invariants hold, and the returned tracks are `objects` |
| CentroidTracking.CentroidTracker.UpdateMatching | gate.py:77-108 | the matching, aging and registering loops give `TrackerSpec.UpdateMatching` |
| CentroidTracking.CentroidTracker.RegisterEach | gate.py:60-61 | the registering loop gives `TrackRegistry.RegisterAll` |
| CentroidTracking.CentroidTracker.AgeEach | gate.py:71-74 | the aging loop gives `TrackRegistry.AgeAll` |
| CentroidTracking.CentroidTracker.Assign | gate.py:90-93 | taking a pair gives `TrackerSpec.Assign` |
| CentroidTracking.CentroidTracker.MatchPairs | gate.py:83-95 | the matching loop with its used sets gives `TrackerSpec.Greedy` |
| Crossing.CrossedLine | gate.py:116-119 | a crossing move starts off the line and changes the watched component |
| Crossing.Side | gate.py:116-119 | the side of the line is -1, 0 or 1, and 0 exactly on the line |
| Crossing.CrossedLineSides | gate.py:116-119 | a move crosses iff it starts off the line and ends on it or on the other side |
| Crossing.StartOnLine | gate.py:119 | a move starting on the line never crosses |
| Crossing.NoMotion | gate.py:119 | a move that keeps the watched component never crosses |
| Crossing.EndOnLine | gate.py:119 | a move from off the line onto it crosses |
| Crossing.Reversal | gate.py:119 | between points off the line, crossing does not depend on direction |
| Crossing.OtherComponent | gate.py:117-118 | only the component selected by the axis ("y" selects y, anything else x) matters |
| GateCounting.Record | gate.py:165-166 | recording an id puts it in the counted set and only grows the set |
| GateCounting.CountLines | gate.py:167-177 | the loops over one category's lines add at most this id, the counter grows by the ids added, and an id already counted leaves the tally unchanged |
| GateCounting.CountLinesOnce | gate.py:164-173 | the loop over one category's lines counts the id once exactly when the move crosses some line and the id was not counted before, however many lines it crosses |
| GateCounting.CountTrack | gate.py:163-165 | one track adds at most its own id, and a track with fewer than two positions adds nothing |
| GateCounting.CountTrackOnce | gate.py:162-166 | a track is counted exactly when it has two positions and its last move crosses a line |
| GateCounting.CountTracks | gate.py:162 | the loop over the tracks only grows the counted set, and only with listed ids |
| GateCounting.CountTracksStep | gate.py:162-177 | one more track processed is one more track step applied to the tally so far |
| GateCounting.CrossersMembers | gate.py:162-166 | the crossers are exactly the listed tracks with two positions whose last move crosses a line |
| GateCounting.CountTracksEffect | gate.py:162-177 | after the loop the counted set is the old set plus the crossers, and the counter grew by the crossers not counted before |
| GateCounting.RecordEffect | gate.py:165-166 | recording a crosser keeps that relation |
| GateCounting.CountTracksConsistent | gate.py:145-149 | a counter equal to the size of its id set stays so, and both only grow |
| GateCounting.CountedStays | gate.py:164 | an id already counted in a category is never counted there again |
| GateCounting.CountTracksIdempotent | gate.py:162-177 | evaluating the same histories again counts nothing more |
| GateCounting.GateCounter.constructor | gate.py:145-149 | both counters 0 and both sets empty |
| GateCounting.GateCounter.CountEntries | gate.py:164-168 | the loop over the entry lines gives `CountLines` on the entry tally and leaves the exit tally alone |
| GateCounting.GateCounter.CountExits | gate.py:170-174 | the loop over the exit lines gives `CountLines` on the exit tally and leaves the entry tally alone |
| GateCounting.GateCounter.Evaluate | gate.py:162-177 | each tally becomes the fold over the tracker's ids in key order with that category's own lines only |
| Foreground.RoundHalfEven | gate.py:123 | the rounding is within half of the sample, and an exact half goes to the even integer |
| Foreground.RoundNearest | gate.py:123 | no integer is nearer to the sample than its rounding |
| Foreground.Rounded | gate.py:123 | the rounded frame has one rounded value per sample |
| Foreground.MaxOf | gate.py:124 | the largest value occurs and bounds all others |
| Foreground.BinCount | gate.py:124 | one bin per value from 0 to the largest |
| Foreground.ArgMax | gate.py:124 | argmax returns an index holding the maximum, and the first such index |
| Foreground.AboveMaxAbsent | gate.py:124 | values above the largest do not occur |
| Foreground.NegativeAbsent | gate.py:124 | negative values do not occur in non-negative samples |
| Foreground.Mode | gate.py:124 | the mode is a bin index, between 0 and the largest sample |
| Foreground.ModeMostFrequent | gate.py:124 | the mode occurs, nothing occurs more often, and every smaller value occurs strictly less often |
| Foreground.ModeUnique | gate.py:124 | those properties determine the mode |
| Foreground.Mask | gate.py:126 | one mask cell per sample |
| Foreground.ForegroundMask | gate.py:122-126 | a wrongly sized frame fails the reshape and nothing else does; a mask has one cell per sample |
| Foreground.RoundNegative | gate.py:123-124 | a sample rounds below zero exactly when it is below -0.5 |
| Foreground.ForegroundMaskOk | gate.py:122-126 | the mask is computed iff the frame has 768 samples all rounding to non-negative values; then a cell is set iff its raw sample exceeds the mode plus the calibration, the mode being the smallest most frequent rounded value |
| Foreground.ForegroundMaskErrors | gate.py:122-124 | the reshape fails exactly for a frame not of 768 samples; the bin count fails exactly for a right-sized frame with a sample below -0.5 |
| Foreground.UniformFrame | gate.py:122-126 | a uniform non-negative frame has no foreground for a calibration of at least one half, such as the default 2.0 |
| Foreground.DefaultUniformFrame | gate.py:13 | with the default calibration 2.0 a uniform non-negative frame has no foreground |
| Foreground.WarmerIsForeground | gate.py:125-126 | a sample at least as warm as a foreground sample is foreground |

## Left out

- Sensor acquisition over I2C, the retry on a failed read, `time.sleep`, the Ctrl+C handling and all `print` output (gate.py:2-18, 150-183). These are hardware I/O and process control. The frame enters the model as a parameter.
- `load_gate_lines` (gate.py:21-37) reads a configuration file. Gate lines are a parameter of the counting step instead.
- The OpenCV contour stage of `detect_blobs` (gate.py:127-138). `findContours`, `contourArea` and `moments` are foreign float computations. The tracker takes the centroids as a parameter.
- git_autopull_pm2.py is not part of this model. It only runs git, pip and pm2 as subprocesses and writes logs.
- Float arithmetic: temperatures and gate coordinates are exact reals, and `np.round` is exact round-half-to-even on them.
- Geometry.SqDist: replaces `cdist`'s float Euclidean distance. Only argmin and ordering use it, and both are the same under square root.
- Assignment.ArgSort: numpy's default sort is not guaranteed stable, so the model fixes the tie-break between equal minimum distances to the lower row first.
- TrackerSpec.UnmatchedInputs: lists the unmatched inputs in ascending column order, and that order decides which input gets which new id. CPython iterates a set in hash-slot order. `set(range(n)) - used_cols` (gate.py:106) is usually a freshly built set, 8 slots for up to 4 members. So the order is ascending only while every unused index is below the result's table size. Example: with 9 inputs and unused columns {5, 8}, CPython visits 8 before 5, so input 8 gets the lower new id, while the model gives it to input 5.
- TrackerSpec.UnmatchedIds: also assumes ascending iteration over `unused_rows`. Here the order does not change the final state, because aging one track leaves every other track unchanged (TrackRegistry.AgeKeeps).
- TrackerSpec.ObjectIds: models `OrderedDict` key order as ascending ids. This equals insertion order, because ids are issued increasing and reassigning a key keeps its place.
- Matching has no maximum-distance cutoff, as in the source. A track is matched to its nearest input however far it is. That input is chosen over all inputs before the loop (gate.py:81). If an earlier track already took it, the track goes unmatched and misses a frame, even when other inputs are still free (gate.py:88-89, 98-103).
- CentroidTracking.CentroidTracker.Update: returns the `objects` map as a value. The caller sharing the live dictionary object (aliasing) is not modelled.
- GateCounting.GateCounter.Evaluate: takes the tracker's id order from its key order. The source iterates `track_history.items()`, which has the same keys in the same order.
- The person count `len(tracker.objects)` (gate.py:179) is printed only, so it is left out with the other output.
- Crossing.AxisValue: only selects a component. Its meaning is stated by `Crossing.OtherComponent`.
