# A verified model of zenodb's core

zenodb is a time series database.  A table is fed from a write-ahead log; for
every key (a set of dimensions) and every field it keeps a *sequence*: an end
time followed by one fixed-width accumulator for each period, newest first.
Rows live in a radix tree in memory and in an immutable file on disk, which a
flush replaces by the join of both.  Queries fold stored accumulators into those
of other expressions at coarser resolutions, group them by other keys, and in a
cluster either run on every partition by themselves or in two phases.  Followers
read the log of a leader and pick up where they left off.

The model covers that path from end to end, one module per layer:

| module | layer | main result |
|---|---|---|
| Accumulators | encoded state of expressions (`expr`) | merging states is concatenating histories, in any order |
| Readings | what states read as (`expr`) | for every history, what each kind of expression reads as, by its parts and points |
| SubMergers | deriving one expression from stored ones (`expr`) | all submergers together rebuild the state of the expression |
| StoredLeaves, Additions | aggregates that are stored several times, or under names that mistake; points that add nothing | exactly when rebuilding is right, and when points change a state |
| Sequences | sequences of accumulators (`encoding`) | for every history, exactly what update, merge and truncate leave of each period |
| Rebucketing | `Sequence.SubMerge` | every result period is the fold of exactly the input periods it holds, with strides and shifts |
| Columns | adding a stored row to a result | every result period gains the state the queried expression should have |
| OldestPeriod | windows that are no multiple of the resolution | exactly when the oldest period takes in nothing from before the window |
| RadixShapes, ByteTree | the radix tree (`bytetree`), as a class over linked nodes | a map from keys to data, with removal per context, breadth-first walks and copies |
| SharedRows | copies of the tree, whose rows are shared | a copy keeps its keys, its rows follow the tree |
| RowJoin, RowStore | iterating and flushing a file with memory | a full outer join; a flush gives every cell the merge of both |
| Arrivals, TreeJoin | the same iteration over the tree itself, for a reader that may stop | the join, unseen by other iterations, exactly if no key came after a longer one |
| Retention | data that has expired | every tenth attempt to flush leaves nothing on disk that has |
| RowRuns, RowProcess | runs of inserts, flushes, failures and crashes | after every run over safe keys, disk and memory hold each logged point exactly once |
| RowPartial, LostRows | a flush between the values of one entry, or of rows without their key | exactly when disk holds what it claims |
| RowCodec | the file format | a file reads back as it was written |
| Following | leaders and followers | over every interleaving of joins, disconnects and deliveries no table misses or repeats an entry, nothing is sent in vain, and all can catch up |
| Pipelining | parallel evaluation on the leader | for every schedule the results of a stream are a prefix of its log, nothing is lost or doubled, and all can come out |
| Grouping, Regrouping | GROUP BY over stored rows, in one phase or two | every group holds what its rows add, submerged field by field |
| Passthrough, PassingLeaves | fields that are passed through to the second phase | exactly when two phases are one |
| Crosstabs | CROSSTAB | the columns of all values merge into the total |
| Pushdown, Partitioning | which queries may run on partitions by themselves, and over which tables | exactly when the answers of the partitions make up the answer |
| Ordering | ORDER BY, LIMIT, OFFSET | when the comparison is an order; tops of tops, and when pages of pages are pages |

`Wrappers` and `Arithmetic` hold an option type and division facts.

## What the code does not promise

Some properties one would expect turned out false of the code.  For each, the
members named here give the exact condition under which it does hold, and a
concrete case in which it does not.

* `Validate` accepts `SUM(BOUNDED(SUM(a)))`, whose state is wider than what its
  cursor moves over, and does not look into the operands of binary expressions
  (`AdvanceIsWidth`, `ValidIsSizedIff`; `ValidateMissesStatefulBounded`,
  `ValidateMissesOperand`).
* Updating a sequence is documented to omit all values older than the cutoff.  It
  leaves them if the updated period is one that the sequence reaches
  (`UpdateOmitsIff`; `ExpiredIsKept`).  Merging is documented to start at the
  cutoff; it only leaves out a sequence that ends before (`MergeExactly`;
  `ExpiredIsMerged`).
* An aggregate is rebuilt from everything that prints like it: a sum that is stored
  under two fields is counted twice (`CopiesIff`, `FieldIff`; `SumStoredTwice`), and
  averages print without their weight (`IsRightIff`, `WeightIff`, `FieldWeightIff`;
  `WeightIsMistaken`).
* If the window of a query is no multiple of its resolution, the oldest period takes
  in values from before the window when parts of a field are shifted and others are
  not (`StopsIff`; `Spills`, `SpillsBefore`).
* A copy of the tree, which queries read, is no snapshot: rows that were there when
  it was made are shared with the tree and change with it (`CopyFollows`,
  `CopyChangesIff`; `CopyIsNoSnapshot`).
* A key added to the tree after a longer key that starts with it is walked without
  its key, and a row that is only in memory then goes on under the empty key
  (`CrowdedKeys`, `NamedJoinIff`, `JoinFilled`; `PrefixIsReportedWithoutKey`,
  `RowLosesKey`).  A flush writes it so: disk then claims points that it does not
  hold for their key (`SafeKeys`, `FlushHoldsIff`; `RunLosesRow`).
* Iterating a file stops without an error at the first row none of whose columns is
  wanted, and leaves out all that follows, in memory too (`RowJoin.Iterate`,
  `IterateTree`; `UnknownFieldEndsIteration`).
* A sorted flush that is given raw rows drops them (`SortedFlushKeeps`;
  `SortedFlushLosesFile`).
* An entry with an array value becomes several inserts at one offset; a flush
  between them records an offset that claims all of them (`FlushInsideEntry`,
  `RestIsIdleIff`; `FlushLosesValue`).
* The row format keeps keys and columns only below 65536, and field names only if
  none contains the separator (`RowRoundTripsIff`, `NamesRoundTripIff`;
  `LongKeyIsMisread`, `SeparatorIsMisread`).
* A follower asks for the earliest offset that *some* table recorded; a table that
  has recorded none for that source misses what came before (`StartCovers`;
  `NewTableIsNotCovered`).
* Conditions are evaluated once for each lower-cased text, also if they differ in the
  case of their values (`MemoIsRightIff`; `CaseIsMistaken`).
* Fields that are passed through to the second phase are submerged from all fields
  that print like them.  A `BOUNDED` aggregate comes out unset unless the aggregate
  is a field too, a sum that is selected twice is doubled, and a `BOUNDED` IF is
  decided by what is left of the dimensions (`TwoPhasesAreOneIff`, `PlainIff`,
  `ConditionalIff`; `BoundedSumIsLost`, `SumIsDoubled`, `ConditionIsLost`).
* Before a query is pushed down only the first subquery is checked for ORDER BY,
  LIMIT, OFFSET and CROSSTAB, `GROUP BY *, y` counts as grouping by all, but groups
  by y, and the GROUP BY of the table is not looked at (`PushedIff`,
  `AllowedIsSafeIff`, `AcceptedAreSafeIff`; `NestedLimitIsAccepted`,
  `NestedCrosstabIsAccepted`, `MixedStarIsAccepted`, `GroupedTableIsAccepted`).
* An OFFSET that is pushed down is applied on the partitions and again on the leader
  (`OffsetIsSafeIff`; `PushedOffsetLosesRow`).
* Sorting by `_time` and then by anything else is not a strict weak order
  (`OrderIsSoundIff`; `TimeFirstIsNoOrder`).

The test whether a sequence must grow leaves out its header.  It is exact for
accumulators of 8 bytes and more, which all stored ones are (`GrowTestIsExact`,
`WidthZeroOrWide`).

## How things are modelled

Times are integers, nanoseconds since Go's zero time, and 0 means that none is
given; Go's integer division is `Quot`.  Floating point numbers are reals, and
the eight bytes of an encoded number are symbolic octets of it, so that a state
is a sequence of octets of the width the source computes.  Conditions and GROUP BY
expressions are functions of dimensions.  Clocks, failures, the order in which
maps and trees are walked, and all scheduling are parameters, so that results
hold for every choice of them.

## Model

| member | source | states |
|---|---|---|
| Accumulators.AdvanceIsWidth | expr/aggregate.go:76-95 | the cursor of Merge and Get moves by at most the encoded width, and by exactly that if and only if no aggregate has a stateful operand |
| Accumulators.ValidateMissesStatefulBounded | expr/aggregate.go:43-56 | an expression that Validate accepts and whose cursor stops short of its width |
| Accumulators.ValidatesIff | expr/binary.go:43-73 | what Validate accepts: aggregates of fields, constants and valid bounds of them; averages likewise, with weights without state; operands of binary expressions by their kind, further only if they are binary too |
| Accumulators.ValidIsSizedIff | expr/aggregate.go:43-56 | if the operands of binary expressions are valid too, the cursor of an accepted expression moves by its width exactly if no aggregate holds a bounded expression with state |
| Accumulators.ValidateMissesOperand | expr/binary.go:51-73 | SUM(SUM(a)) is refused, and SUM(SUM(a)) + 1 accepted |
| Accumulators.WidthZeroOrWide | expr/avg.go:39-41 | every expression is stateless or at least 9 bytes wide |
| Accumulators.MergeInPlace | expr/aggregate.go:107-109 | merging into the buffer that holds the first operand gives the same state as merging into a new one |
| Accumulators.MergeIdentity | expr/aggregate.go:76-95 | zero bytes are the identity of merge on both sides, for every expression |
| Accumulators.MergeCommutes | expr/avg.go:64-83 | merge is commutative on all states of every expression |
| Accumulators.MergeAssociates | expr/binary.go:95-98 | merge is associative on all states of every expression |
| Accumulators.UpdateOfMerge | expr/if.go:33-43 | updating a merge is merging with the updated operand |
| Accumulators.MergeIsConcat | expr/binary.go:88-98 | the merge of the states of two histories is the state of the histories one after the other |
| Accumulators.StateOfPermutation | expr/avg.go:52-83 | the state of a history depends only on the multiset of its points |
| Accumulators.AggregateMeaning | expr/aggregates.go:3-51 | after any history SUM, MIN, MAX and COUNT hold the sum, least, greatest and number of the included values, set exactly if there are any |
| Accumulators.AverageMeaning | expr/avg.go:52-114 | after any history an average holds the total weight and the weighted total; times the weight its value is the total, and it is 0 if the weight is |
| Accumulators.UpdateBufferIsUpdate | expr/binary.go:88-93 | updating in place, part by part with a moving cursor, is updating the state at that place and nothing else |
| Accumulators.UpdateAt | expr/if.go:33-39 | the recursive update of a byte buffer: new contents and where the cursor ends |
| Accumulators.UpdateLeafAt | expr/aggregate.go:66-74 | the update of an aggregate or average inside a buffer leaves all other bytes alone |
| Accumulators.MergeBufferIsMerge | expr/binary.go:95-98 | merging in place part by part is merging the states at the two places |
| Accumulators.SubMergeAt | expr/binary.go:120-122 | the recursive merge of two byte buffers: new contents and both cursors |
| Accumulators.SubMergeAggregateAt | expr/aggregate.go:76-109 | the merge of an aggregate inside a buffer |
| Accumulators.SubMergeAverageAt | expr/avg.go:64-99 | the merge of an average inside a buffer |
| Readings.BinaryReads | expr/binary.go:143-149 | after any history a binary expression is set exactly if one of its operands is, and then holds what its operator makes of both, an unset one counting as 0 |
| Readings.CalcComputes | expr/conds.go:3-50 | for all twelve operators: sums and differences undo each other, a quotient times the divisor is the dividend, the two cases of dividing by 0, and comparisons, AND and OR are 1 or 0 as the relation holds or not |
| Readings.LargestFloat | expr/calcs.go:20-28 | what x / 0 gives is the largest number of 53 bits below the 1024th power of two |
| Readings.BoundedReads | expr/bounded.go:62-69 | a bounded expression reads as its operand if that is set and within the bounds, and is unset otherwise |
| Readings.PlainReads | expr/constant.go:43-45 | constants are always set, and fields by themselves never |
| Readings.ConditionReads | expr/if.go:33-91 | after any history IF reads as its operand after the points whose dimensions evaluate to true, or that have none |
| Readings.ShiftReads | expr/shift.go:33-80 | SHIFT reads as its operand |
| Readings.PartsGive | expr/binary.go:88-93 | what one point gives to a binary, shifted or conditional expression without state, and whether it counts, by what it gives to the parts |
| Readings.FieldReads | expr/field.go:45-48 | after any history an aggregate of a field summarizes the values that points have for it |
| Readings.RangeReads | expr/bounded.go:41-52 | after any history an aggregate of a bounded field summarizes those of them within the bounds |
| SubMergers.SubMergersRebuild | expr/binary.go:100-118 | if the stored expressions cover the queried one, and no two are the same up to weights of averages and rounding of constants, running all submergers on what is stored adds exactly the state the queried expression should have, conditions and shifts included |
| SubMergers.MatchesIff | expr/if.go:45-64 | expressions are taken for each other exactly if fields, functions, bounds, operators, conditions and offsets are the same, and constants have the same sign and round to the same millionth |
| SubMergers.CopiesAreMerged | expr/if.go:45-64 | an expression that is stored several times is merged as often, a binary one once |
| SubMergers.ShiftIsLeast | expr/binary.go:79-86 | the total shift is the least of the offsets that parts are shifted by |
| SubMergers.SubMergersFit | expr/shift.go:41-60 | every submerger fits the layout of the queried expression and the width of the stored one |
| SubMergers.ApplyAdds | expr/binary.go:124-141 | a submerger adds to a state: running it on a merge is merging with what it gives for one operand |
| SubMergers.ApplyIsAddition | expr/if.go:66-75 | what a submerger adds does not depend on what it is added to |
| SubMergers.ApplyCommutes | bytetree/bytetree.go:239-253 | the order in which stored columns and rows are submerged does not matter |
| SubMergers.ApplyReach | expr/shift.go:62-72 | a submerger reads no further back than the total shift, missing periods counting as unset |
| SubMergers.ShiftIsBack | expr/binary.go:79-86 | the total shift of an expression whose shifts look back looks back |
| StoredLeaves.IsRightIff | expr/aggregate.go:97-105 | for all histories and prior states, an aggregate or average is rebuilt right exactly if from every single point the stored expressions that print like it take together what it takes |
| StoredLeaves.CopiesIff | expr/aggregate.go:97-105 | if they all take what it takes, that is so exactly if there is one, or several and it is an extreme, or they only ever take zeros or nothing |
| StoredLeaves.FieldIff | expr/aggregate.go:97-105 | an aggregate of a field is rebuilt right exactly if it is stored once, or is an extreme and stored at all |
| StoredLeaves.WeightIff | expr/avg.go:85-95 | with one stored expression that prints like it, an average is rebuilt right exactly if both take the same from every point, weights included |
| StoredLeaves.FieldWeightIff | expr/avg.go:85-95 | an average of a field weighted by a field or constant, with one stored expression that prints like it, is rebuilt right exactly if the weights are the same |
| StoredLeaves.SumStoredTwice | expr/aggregate.go:97-105 | SUM(a) stored twice: a point with a = 2 is rebuilt as 4 |
| StoredLeaves.WeightIsMistaken | expr/avg.go:143-145 | AVG(a) asked of a table with WAVG(a, w): a point with a = 10 and w = 0 is rebuilt as 0 |
| Additions.AddNothingIff | expr/aggregates.go:3-51 | more points leave the state of any expression as it was exactly if they add nothing to any of its aggregates |
| Additions.RestIsIdleIff | expr/aggregates.go:3-51 | leaving out the last of some points goes unnoticed after every history exactly if they add nothing to the first ones |
| Sequences.RoundUpIsCeiling | encoding/time.go:39-45 | rounding up gives the first multiple of the resolution at or after a time |
| Sequences.RoundDownIsFloor | encoding/time.go:47-53 | rounding down gives the last multiple of the resolution at or before a time |
| Sequences.RoundUntilUp | encoding/time.go:55-65 | rounding up on the grid of an end time gives its first time at or after |
| Sequences.RoundUntilDown | encoding/time.go:67-77 | rounding down on the grid of an end time gives its last time at or before |
| Sequences.TruncateMeaning | encoding/seq.go:418-453 | truncating keeps exactly the periods in (asOf, until], a zero time being no bound |
| Sequences.TruncateIsPrefix | encoding/seq.go:439-450 | without an upper bound what is left are the newest cells as they were |
| Sequences.TruncateLeaves | encoding/seq.go:439-450 | without an upper bound something is left exactly if the sequence ends after the cutoff |
| Sequences.GrowTestIsExact | encoding/seq.go:232-238 | the test for growing is exact for all positions if and only if cells have at least 8 bytes, as the header has |
| Sequences.UpdateValueMeaning | encoding/seq.go:178-241 | for every period, what an update leaves: the period that holds the time is updated unless it started before the cutoff; others that did are dropped if so, or if the sequence grows to a later end; all else stays |
| Sequences.UpdateOmitsIff | encoding/seq.go:169-241 | an update omits all values from before the cutoff exactly if it is for a period that started before it, or after the end of the sequence, or there were none |
| Sequences.UpdateValueExtent | encoding/seq.go:178-241 | from when to when an updated sequence reaches |
| Sequences.ExpiredIsKept | encoding/seq.go:229-241 | an update within a sequence leaves a value from before the cutoff |
| Sequences.UpdateStaysOnGrid | encoding/seq.go:206-228 | an updated sequence still ends on a multiple of the resolution |
| Sequences.UpdateKeepsCells | encoding/seq.go:178-241 | cells keep every property that zero bytes have and the update preserves |
| Sequences.HistoryMeaning | encoding/seq.go:162-174 | after any history of updates in any order of time, each live period holds the fold of the updates that fell into it |
| Sequences.MergeMeaning | encoding/seq.go:331-414 | merging is pointwise: each live period holds the merge of both cells |
| Sequences.MergeExactly | encoding/seq.go:331-414 | for every period: the merge of both cells, or those of one sequence if the other ends before the cutoff and no later |
| Sequences.ExpiredIsMerged | encoding/seq.go:322-352 | with a cutoff of 2, merging sequences that end at 2 leaves the period that ends at 1 |
| Sequences.MergeExtent | encoding/seq.go:354-372 | a merged sequence reaches from the earlier start to the later end, unless one is left out |
| Sequences.MergeCommutes | encoding/seq.go:331-414 | period by period, merging sequences is commutative |
| Sequences.MergeAssociates | encoding/seq.go:331-414 | period by period, merging sequences is associative |
| Sequences.MergeWindows | encoding/seq.go:331-414 | the merge with cursors (leader, overlap or gap, rest) computes the pointwise merge, for nil and out of order operands too |
| Sequences.MergeOrderedWindows | encoding/seq.go:354-414 | the three windows for operands in order of their ends |
| Rebucketing.PreparedMeaning | encoding/seq.go:251-277 | truncating the input and growing it by the shift leaves exactly the periods in (asOf + shift, until], whether or not asOf is on the grid of the query |
| Rebucketing.WithinMeaning | encoding/seq.go:251-264 | what is within reach of a query is its input in (asOf + shift, until] and nothing else |
| Rebucketing.RoomMeaning | encoding/seq.go:278-302 | the result is extended at both ends to hold the input, every period keeping its cell |
| Rebucketing.RoomExtent | encoding/seq.go:278-301 | the result is extended as far as the input needs and no further |
| Rebucketing.SeesInput | encoding/seq.go:310-318 | what a submerger sees of the rest of the buffer is the input at its own time and before |
| Rebucketing.SubMerge | encoding/seq.go:243-320 | every period of the query, the oldest one included, ends up with the submerger run, newest first, on exactly the input periods on the fine grid that lie wholly in it and, when striding, wholly in its newest part; outside of the query nothing is left, unless there was no input |
| Rebucketing.FoldInput | encoding/seq.go:303-318 | the loop over the periods of the input |
| Rebucketing.StrideIsExact | encoding/seq.go:308-317 | comparing positions with the number of whole input periods in the stride tells whether an input period lies wholly in it |
| Rebucketing.EndsAreTaken | encoding/seq.go:305-318 | the input periods that a result period takes in, by their times |
| Rebucketing.RoomIsWithin | encoding/seq.go:257-301 | the result is cut to the query at both ends before input is added |
| Columns.MergerIsLawful | encoding/seq.go:331-414 | the merge of every expression has the laws that merging sequences relies on |
| Columns.JobIsLawful | encoding/seq.go:310-318 | the submergers of every expression have the laws that rebucketing relies on |
| Columns.ExpectedIsUpdated | expr/shift.go:33-39 | without shifts, what a period should hold is the state of its own points |
| Columns.ShiftedState | expr/shift.go:62-72 | with a shift, what a period should hold is the state of the points of the period that much earlier |
| Columns.BucketIsState | encoding/seq.go:303-318 | without shifts, what a result period should hold is the state of all points that fall into it, and into the stride |
| Columns.ShiftedBucket | expr/shift.go:62-72 | with a shift, of those that fall into the period that much earlier |
| Columns.FoldAddsPart | encoding/seq.go:310-318 | submerging a column into any state adds the same part |
| Columns.ColumnsAddSum | bytetree/bytetree.go:242-252 | submerging the columns one after the other adds the sum of their parts |
| Columns.RowAddsExpected | bytetree/bytetree.go:239-253 | a stored row adds to a result period the state the queried expression should have for the row's points there |
| Columns.AddColumn | bytetree/bytetree.go:242-252 | one column: skipped without a submerger, else the fold for every period of the query |
| Columns.AddRow | bytetree/bytetree.go:225-256 | the loop over columns gives every period of the query the merge of what it held and what the expression should have for the row's points within reach, which are all of them unless the period starts before the query |
| Columns.FullPeriods | encoding/seq.go:243-320 | what is out of reach of a query does not matter to the input periods after asOf |
| OldestPeriod.StopsIff | encoding/seq.go:243-320 | for every column and prior state, a period of the query takes in nothing from before asOf exactly if it does not start before, the stride ends before, or all parts that are merged read as far back as the whole expression |
| OldestPeriod.Spills | planner/local.go:110-135 | a part that reads less far back takes in a value from before asOf |
| OldestPeriod.SpillsBefore | planner/local.go:110-135 | periods of 3 in a window of 10, and SUM(a) less the sum of the period before: a sum of 2 just before the window should make the oldest period -2 and makes it 0 |
| RadixShapes.FindInserted | bytetree/bytetree.go:189-223 | adding a key gives it its node and leaves every other key where it was |
| RadixShapes.FindInjective | bytetree/bytetree.go:189-223 | different keys reach different nodes |
| RadixShapes.InsertIsWf | bytetree/bytetree.go:282-292 | adding a key, by a new edge or a split, keeps edges non-empty and without common first bytes |
| RadixShapes.PathTo | bytetree/bytetree.go:82-109 | every node but the root is reached by a key |
| RadixShapes.SeekFinds | bytetree/bytetree.go:114-149 | the scan of Remove, which skips edges that only share a prefix, finds what the scan of Update finds |
| RadixShapes.CrowdedMeansPrefix | bytetree/bytetree.go:282-292 | a key without data ends inside the tree exactly when it is a proper prefix of a key with data |
| RadixShapes.BreadthOnce | bytetree/bytetree.go:82-109 | a breadth-first walk meets every node once and only those |
| ByteTree.MatchLength | bytetree/bytetree.go:196-203 | the number of leading bytes that two keys share |
| ByteTree.Scan | bytetree/bytetree.go:189-223 | which edge decides about a key: found, down, split or none |
| ByteTree.Seek | bytetree/bytetree.go:114-149 | which edge Remove takes |
| ByteTree.Fork | bytetree/bytetree.go:282-292 | the two nodes of a split, or one if the key ends there |
| ByteTree.CopyEdges | bytetree/bytetree.go:152-176 | a copied node has its own edges to copies of the same targets |
| ByteTree.Tree.Update | bytetree/bytetree.go:180-187 | changes the data of one key and of no other, keeps nodes, reported keys and removals, counts new nodes, for which nothing is removed |
| ByteTree.Tree.DoUpdate | bytetree/bytetree.go:189-223 | finds or makes the node of a key and changes its data |
| ByteTree.Tree.Descend | bytetree/bytetree.go:189-223 | follows a key to the node whose edges decide about it |
| ByteTree.Tree.Change | bytetree/bytetree.go:225-256 | an exact match: only the data of that node changes |
| ByteTree.Tree.AddEdge | bytetree/bytetree.go:218-221 | no edge: a new leaf, all other keys as before |
| ByteTree.Tree.SplitEdge | bytetree/bytetree.go:282-292 | an edge that the key leaves or ends in: all other keys as before |
| ByteTree.Tree.Lookup | bytetree/bytetree.go:114-149 | finds the node of a key |
| ByteTree.Tree.Remove | bytetree/bytetree.go:114-149 | returns what the context sees of a key and hides it from that context and no other; context 0 hides nothing |
| ByteTree.Tree.Walk | bytetree/bytetree.go:82-109 | reports the live nodes breadth first until told to stop, and hides exactly those not kept |
| ByteTree.Tree.Visit | bytetree/bytetree.go:91-102 | one node of a walk |
| ByteTree.Tree.VisitNext | bytetree/bytetree.go:258-280 | the removals after one more node of a walk |
| ByteTree.Tree.Copy | bytetree/bytetree.go:152-176 | a tree of new nodes with the same data and reported keys for all keys, in which every context sees everything |
| ByteTree.Tree.CopyNodes | bytetree/bytetree.go:152-176 | the breadth-first loop copies every node once, with the edges of its original |
| ByteTree.Tree.WalkReports | bytetree/bytetree.go:78-109 | an undisturbed walk reports every key the context still sees, once, with its data |
| ByteTree.Tree.CrowdedKeys | bytetree/bytetree.go:282-292 | a new key is reported without its key exactly when it is a proper prefix of a stored one |
| ByteTree.Tree.OtherNodes | bytetree/bytetree.go:189-223 | no two keys share a node |
| ByteTree.PrefixIsReportedWithoutKey | bytetree/bytetree.go:282-292 | two updates after which a key has data but is reported without its key |
| SharedRows.UpdateFields | bytetree/bytetree.go:225-256 | the fields of a row are written into the slice of its node, one by one |
| SharedRows.Place | bytetree/bytetree.go:189-223 | the slice of a key, or a new one; all other keys keep theirs |
| SharedRows.UpdateRow | bytetree/bytetree.go:180-256 | the row of one key changes where it is, or is a new one; no other row is written |
| SharedRows.UpdateCopied | bytetree/bytetree.go:152-176 | one update after a copy was made: the copy's keys stay, its rows are those of the tree |
| SharedRows.CopyFollows | row_store.go:85-96 | after any updates a copy has the keys it was made with, and for each the row of the tree after all of them |
| SharedRows.CopyChangesIff | row_store.go:85-96 | an update shows in a copy exactly if the key was there when it was made and the update changes its row |
| SharedRows.CopyIsNoSnapshot | row_store.go:85-96 | a copy made when the row was 0 has 1 after the tree was updated |
| RowJoin.KnownFields | row_store.go:919-953 | the fields named in a header; unknown names give no field |
| RowJoin.OutIdxsFor | row_store.go:1017-1031 | the place of each field in the output, or -1 |
| RowJoin.MapColumns | row_store.go:987-998 | the columns of the file at their places |
| RowJoin.MergeColumns | row_store.go:1000-1015 | the columns in memory merged into their places |
| RowJoin.JoinRow | row_store.go:855-899 | a row of the file joined with its counterpart in memory |
| RowJoin.Iterate | row_store.go:742-917 | all rows of the file joined, then what is only in memory; stops early exactly at a row that none of the wanted fields is part of |
| RowJoin.IterateMemory | row_store.go:903-914 | the rows in memory that no row of the file has taken |
| RowJoin.OuterJoin | row_store.go:742-917 | every key of file or memory is passed on exactly once and no other |
| RowJoin.JoinedOf | row_store.go:742-917 | what is passed on for each key: raw, joined, or memory alone |
| RowJoin.UnknownFieldEndsIteration | row_store.go:866-899 | a file row with an unknown field only: nothing is passed on, also not the row that is only in memory |
| TreeJoin.NextRow | row_store.go:836-899 | one row of the file joined with what the tree still has for its key, which is then gone for this iteration and no other |
| TreeJoin.JoinFile | row_store.go:809-901 | the rows of the file, up to the first with no wanted column or with which the reader has enough |
| TreeJoin.WalkRest | row_store.go:903-914 | each row left in the tree once, by the key that the walk reports, until the reader has enough |
| TreeJoin.IterateTree | row_store.go:742-917 | the whole iteration under its own context, for every reader, file and tree: rows of the file joined, then the rest of the tree, while all other contexts see what they saw |
| Arrivals.NamedJoinIff | row_store.go:903-914 | rows that are only in memory go on by the names their order of arrival gives them; that is the outer join exactly if none of them came after a longer key that starts with its own |
| TreeJoin.Put | bytetree/bytetree.go:180-187 | one more row put into a tree: which keys are reported then |
| TreeJoin.IterateAll | row_store.go:742-917 | an iteration of a tree that is read to the end passes on the rows of the file and of memory, by the names their order of arrival gives them |
| TreeJoin.JoinFilled | row_store.go:742-917 | a tree filled in any order and joined with a file gives the outer join of both exactly if no key that is only in memory came after a longer one that starts with it |
| TreeJoin.Fill | bytetree/bytetree.go:282-292 | for any rows put in one after the other, the tree holds the last of each key, and reports a key unless it first came after a longer one that starts with it |
| TreeJoin.RowLosesKey | row_store.go:903-914 | a tree with two rows, of which one is passed on without its key |
| RowStore.DoWrite | row_store.go:565-655 | what is written of a row: raw rows as they are, or nothing when sorting; of others the cells after the cutoff and no others, and no row if no column ends after it |
| RowStore.WriteAll | row_store.go:464-474 | the rows of a new file |
| RowStore.WrittenOf | row_store.go:565-655 | the row written for each key |
| RowStore.FlushRows | row_store.go:455-508 | exactly when the iteration of a flush reaches its end, and that the new file is then the join |
| RowStore.FlushedCol | row_store.go:455-508 | the column of the new file for every key and field |
| RowStore.FlushedCell | row_store.go:455-508 | every cell within retention is the merge of the file's and memory's |
| RowStore.FlushedIsGood | row_store.go:565-655 | columns of the new file are on the grid and hold states |
| RowStore.FlushedFits | row_store.go:565-655 | rows of the new file have different keys and one column per field |
| RowStore.SortedFlushKeeps | row_store.go:565-655 | a sorted flush keeps a live cell exactly when its row was not passed on raw or the cell was unset |
| RowStore.SortedFlushLosesFile | row_store.go:565-655 | with nothing in memory a sorted flush of raw rows writes no row |
| RowStore.MergedCell | row_store.go:1000-1015 | merging columns merges their live cells |
| RowStore.TruncatedCell | row_store.go:580-587 | truncating columns keeps the cells after the cutoff and drops all others |
| RowStore.Leaves | row_store.go:580-587 | something is left of a column exactly if it ends after the cutoff |
| RowStore.WrittenMeaning | row_store.go:578-592 | what is left of a row, and when nothing is |
| RowStore.FlushedDrops | row_store.go:455-508 | every cell of a period that ended by the cutoff is unset in the new file, unless its row was copied raw |
| RowStore.FlushedRowIff | row_store.go:589-592 | a key that is not copied has a row in the new file exactly if some column of it in file or memory ends after the cutoff |
| RowRuns.Advance | common/common.go:112-130 | for every source the later of both offsets |
| RowRuns.LimitAge | common/common.go:133-143 | the same sources, no offset earlier than the limit and none moved back or further than needed |
| RowRuns.BetweenSplits | row_store.go:156-157 | the points logged up to an offset are those up to an earlier one and those between |
| RowRuns.BetweenNext | row_store.go:287-295 | one more entry of a source adds its points to its own key and period only |
| RowRuns.LandsIff | row_store.go:287-295 | an entry falls into the period that holds its time |
| RowRuns.InsertedCell | insert.go:123-168 | an entry changes the cell of its own key and period, if it is no older than the cutoff, and no other |
| RowRuns.OldIsSkipped | insert.go:133-136 | an entry that is older than the cutoff, or did not pass, moves the offset of its source and nothing else |
| RowRuns.InsertKeeps | insert.go:123-168 | an insert or a skipped entry keeps the invariant |
| RowRuns.FlushKeeps | row_store.go:365-453 | a flush that loses no key and has room for its rows keeps the invariant |
| RowRuns.FlushIsJoin | row_store.go:455-508 | if no row that is only in memory came after a longer key, and rows fit their format, the file that a flush leaves is the join of the old one with memory |
| RowRuns.SafeIsFaithful | row_store.go:455-508 | that is so if no logged key but the empty one is the beginning of another, and keys and columns are fewer than 65536 |
| RowRuns.WriteOffsetsKeeps | row_store.go:254-264 | recording offsets with nothing in memory keeps the invariant, whether it succeeds or not |
| RowRuns.CrashKeeps | row_store.go:98-186 | a crash and reopening keep the invariant |
| RowRuns.FailureKeeps | row_store.go:394-404 | a failed attempt to flush keeps the invariant |
| RowRuns.StepKeeps | row_store.go:285-325 | every step of a run keeps the invariant, a flush if it loses no key |
| RowRuns.RunKeepsInvariant | row_store.go:243-326 | after every run of inserts, skips, flushes, failures, offset writes and crashes over logs with safe keys, each live cell on disk is the state of exactly the points logged up to the offsets that reopening recovers, and memory holds exactly those since |
| RowRuns.RunCatchesUp | row_store.go:253-264 | after every run over logs with safe keys in which offsets could be written, a store without changes recovers exactly the offsets that it is at |
| RowRuns.ProcessedIsSeen | row_store.go:328-349 | file and memory together show exactly the points processed so far |
| LostRows.FlushHoldsIff | row_store.go:455-508 | after a flush disk holds what it claims for a key but the empty one exactly if its row was not written without its key, or has nothing there |
| LostRows.ReadIffRoom | row_store.go:594-655 | the file reads back as written exactly if keys and numbers of columns fit 16 bits, and as anything otherwise |
| LostRows.RunLosesRow | row_store.go:243-326 | two inserts, for the keys [1, 2] and [1], and a flush: disk claims the point of [1] and has nothing for that key |
| Retention.FlushForgets | row_store.go:375-380 | a flush that copies no row leaves rows that have something after the cutoff and nothing before, whatever names they go by |
| Retention.AttemptsAreCounted | row_store.go:375-380 | the count of flushes is the number of attempts since the store was opened |
| Retention.RunForgets | row_store.go:375-392 | after every run over logs with safe keys that ends with a flush at the tenth attempt, the twentieth and so on, disk has no period that ended by the cutoff and no row of which nothing is left |
| RowPartial.FlushInsideEntry | insert.go:213-262 | a flush between the points of one entry claims all of them; if no row loses its key, disk holds what it claims exactly if the remaining points add nothing to any aggregate after those before |
| RowPartial.FlushLosesValue | insert.go:213-262 | an entry with the values 1 and 2, flushed after the first: disk claims the entry and holds 1 |
| RowProcess.Processor.Open | row_store.go:98-186 | reopening goes on from the file and the later of both offsets, with nothing in memory |
| RowProcess.Processor.UpdateColumns | bytetree/bytetree.go:230-237 | every field of a row is updated with a point |
| RowProcess.Processor.ProcessInsert | row_store.go:287-295 | one message: the offset is taken over, the point added to its key in the tree unless there is none |
| RowProcess.Processor.PutRow | row_store.go:290-293 | a row put into the tree of the memstore |
| RowProcess.Processor.ProcessPoints | insert.go:213-268 | one insert for each point of an entry |
| RowProcess.Processor.ProcessEntry | insert.go:123-268 | one log entry: skipped, or one insert for each of its points, is the insert step of a run |
| RowProcess.Processor.Flush | row_store.go:253-283 | with the given failures: the flush step of a run, the recording of offsets, or a panic after three failures; what failed attempts removed from the tree is there for the next |
| RowProcess.Processor.WriteFile | row_store.go:365-453 | the rows of the new file are those of the old one joined with the tree, by the keys that the tree reports |
| RowProcess.Processor.TryFlush | row_store.go:394-404 | an attempt that stops anywhere changes nothing that later contexts see |
| RowProcess.Processor.Replace | row_store.go:425-441 | an attempt that succeeds: the new file and an empty tree take over |
| RowCodec.WriteRow | row_store.go:565-655 | the bytes of a row: lengths, key, and columns |
| RowCodec.RowLength | row_store.go:594-601 | the length announced for a row is the number of its bytes |
| RowCodec.ReadRow | row_store.go:836-880 | a row is decoded from its bytes, or refused if they are too few |
| RowCodec.ReadOffsets | row_store.go:1059-1081 | the offsets of a header and what follows them |
| RowCodec.HeaderLength | row_store.go:514-563 | the length announced for a header is the number of its bytes |
| RowCodec.RowRoundTrips | row_store.go:565-655 | a row within the limits reads back as it was written |
| RowCodec.RowRoundTripsIff | row_store.go:565-655 | a row reads back as it was written exactly if key and number of columns fit 16 bits |
| RowCodec.LongKeyIsMisread | row_store.go:594-655 | a row whose key is 65536 zeros reads back as a row without a key |
| RowCodec.RowsRoundTrip | row_store.go:809-834 | all rows read back in order |
| RowCodec.OrderDoesNotMatter | row_store.go:1033-1057 | the offsets read do not depend on the order in which they were written |
| RowCodec.NamesRoundTripIff | row_store.go:919-953 | field names read back exactly if there are some and none contains the separator |
| RowCodec.SeparatorIsMisread | row_store.go:919-953 | a field name with the separator in it reads back as several |
| RowCodec.HeaderRoundTrips | row_store.go:514-563 | offsets and field names read back as written |
| RowCodec.FileRoundTrips | row_store.go:514-655 | a whole file reads back: offsets, fields, and rows |
| RowCodec.ReadWritten | encoding/encoding.go:21-67 | a number reads back modulo what its width holds |
| RowCodec.BytesOfNumber | encoding/encoding.go:18-49 | the bytes of a number, most significant first |
| RowCodec.RowLayout | row_store.go:594-640 | where the parts of a row are in its bytes, and how long they are |
| RowCodec.HeaderLayout | row_store.go:1033-1057 | where offsets and field names are in the bytes of a header |
| RowCodec.FileLayout | row_store.go:514-563 | where header and rows are in the bytes of a file |
| Following.EarliestOffset | cluster_follow.go:267-289 | where the log is read from again: the least offset of all specs |
| Following.JoinSpecs | cluster_follow.go:146-178 | each of a joining follower's specs is at the later of its table's offset and its earliest offset, all others stay |
| Following.Give | cluster_follow.go:758-786 | an entry goes to each table it is new for, in turn, until cancelled |
| Following.JoinKeeps | cluster_follow.go:216-310 | a join or rejoin keeps the invariant |
| Following.DispatchKeeps | cluster_follow.go:312-355 | dispatching an entry keeps the invariant |
| Following.DeliverKeeps | server/server.go:441-457 | delivering an entry keeps the invariant |
| Following.InterruptKeeps | cluster_follow.go:768-780 | a delivery that reaches only some tables keeps the invariant |
| Following.DisconnectKeeps | server/server.go:460-473 | losing a connection keeps the invariant |
| Following.RunKeepsInvariant | cluster_follow.go:115-361 | over every interleaving, each table has taken entries in log order and none twice, and every entry that matches it between where it first joined and its offset; what it is still owed is queued while it is connected |
| Following.RunIsEconomical | cluster_follow.go:312-355 | over every interleaving, followers are only sent entries that some table of theirs should have, and never again what came before an entry that all of their tables were given |
| Following.CanCatchUp | cluster_follow.go:115-361 | after every interleaving, a follower that joins and stays connected can get every entry that its tables should have |
| Following.Leader.OnFollowerJoined | cluster_follow.go:128-182 | the leader's maps after a join are those of the join step |
| Following.Leader.Included | cluster_follow.go:321-337 | an entry is queued as often as there are tables that it matches and is new for |
| Following.Leader.Submit | cluster_follow.go:347-355 | queues of included followers gain the entry, others stay |
| Following.Leader.OnResult | cluster_follow.go:312-355 | the leader's maps and queues after a result are those of the dispatch step |
| Following.Leader.Moved | cluster_follow.go:338-343 | all specs that the entry is new for move on to it |
| Following.EarliestRecorded | cluster_follow.go:714-728 | the least offset recorded for a source by any table, if any recorded one |
| Following.StartCovers | cluster_follow.go:714-728 | it covers every table exactly if all have recorded one or it is the start |
| Following.NewTableIsNotCovered | cluster_follow.go:714-728 | a table that has recorded nothing, next to one that is at 5, joins at 5 |
| Following.WherePassed | cluster_follow.go:475-521 | each condition text is evaluated once for an entry |
| Following.MemoIsRightIff | cluster_follow.go:475-521 | that is right for all entries exactly if conditions that differ only in case agree on all dimensions |
| Following.CaseIsMistaken | cluster_follow.go:475-521 | two tables that ask for EU and for eu: the second gets what the first asked for |
| Pipelining.SortKeepsStreams | cluster_follow.go:380-384 | sorting a batch by offset leaves each stream in log order |
| Pipelining.SubmitKeeps | cluster_follow.go:416-458 | taking in a request keeps the invariant |
| Pipelining.EnqueueKeeps | cluster_follow.go:416-458 | passing a request to the workers keeps the invariant |
| Pipelining.CollectKeeps | cluster_follow.go:523-550 | collecting a result keeps the invariant |
| Pipelining.SortKeeps | cluster_follow.go:523-550 | sorting a full batch keeps the invariant |
| Pipelining.SendKeeps | cluster_follow.go:523-550 | sending a result on keeps the invariant |
| Pipelining.RunKeepsInvariant | cluster_follow.go:386-550 | every schedule keeps the invariant |
| Pipelining.RunKeepsOrder | cluster_follow.go:386-550 | after every schedule the results of each stream are a prefix of its requests, in order |
| Pipelining.RunKeepsContent | cluster_follow.go:386-550 | results and requests under way are exactly the requests taken, each once |
| Pipelining.CanFinish | cluster_follow.go:386-550 | after every schedule there are steps after which all requests have come out, each stream in order |
| Grouping.SliceRow | core/group.go:116-148 | the key of a row's group: under each name the value of the last expression with that name that has one; without expressions all dimensions, none with a crosstab, and all but `_crosstab` with that of a cluster |
| Grouping.TotalPermutes | core/group.go:113-197 | the order of rows does not matter |
| Grouping.KeyOfKey | planner/cluster.go:233-248 | grouping a key made of the parameters gives the key of the row |
| Grouping.PhaseOneGroups | planner/cluster.go:233-248 | grouping a partition by the parameters is the first phase |
| Grouping.TwoPhasesAreOne | planner/cluster.go:191-298 | for any cells that rows contribute: totals by the expressions of the partitions' totals by the parameters are the totals of all rows by the expressions |
| Regrouping.AddRow | bytetree/bytetree.go:225-256 | running the submergers of all fields on a row merges what it adds into the states of its group, or into unset ones |
| Regrouping.GroupRows | core/group.go:113-197 | each group holds, for each field, the merge of what the submergers make of exactly the rows with its key, and groups are those of some row |
| Regrouping.AddsMerges | bytetree/bytetree.go:239-253 | what a row adds to a field does not depend on what is there |
| Regrouping.AllMerged | expr/binary.go:120-141 | submerging rows that were merged cell by cell is merging what is submerged of each |
| Regrouping.PassingAgrees | planner/cluster.go:191-298 | if every field passes for single rows, regrouping what any partitions send on is grouping all rows |
| Passthrough.TwoPhasesAreOneIff | planner/cluster.go:191-298 | two phases are one, for all rows, partitions and orders, exactly if every field comes out of both phases as it should for every single row |
| Passthrough.BoundedPasses | expr/bounded.go:58-60 | a bounded expression passes exactly if what it bounds does |
| Passthrough.OwnPasses | planner/cluster.go:285-293 | an expression that is one of the fields, once, passes, whatever it is made of and whatever its conditions ask for |
| Passthrough.BinaryPasses | expr/binary.go:100-118 | a binary expression that is no field passes exactly if both operands do |
| Passthrough.IfPassesIff | expr/if.go:45-75 | an IF that is no field, over something that passes, passes exactly if the partitions' keys decide its condition for all dimensions that can add something |
| Passthrough.ShiftPassesIff | expr/shift.go:41-72 | a SHIFT that is no field passes exactly if it points past the end or its operand passes for the periods that are left |
| PassingLeaves.LeafPassesIff | expr/aggregate.go:97-105 | an aggregate or average passes exactly if nothing of it is stored, or one field prints like it, or several do and it is an extreme |
| PassingLeaves.PlainIff | planner/cluster.go:285-293 | a query for aggregates and averages, bounded or not, is the same in two phases as in one exactly if each of them, without its bounds, is selected once, or at all if it is an extreme |
| PassingLeaves.OwnFieldsAgree | planner/cluster.go:285-293 | any query is the same in two phases as in one if each field, without its bounds, is selected once |
| PassingLeaves.ConditionalIff | expr/if.go:45-75 | a conditional aggregate next to the aggregate passes exactly if the partitions' keys decide its condition |
| PassingLeaves.BoundedSumIsLost | expr/bounded.go:58-60 | BOUNDED(SUM(a), 0, 10) alone: a row with a = 2 comes out as 2 in one phase and unset in two |
| PassingLeaves.SumIsDoubled | expr/aggregate.go:97-105 | SUM(a) selected twice: a row with a = 2 comes out as 2 in one phase and 4 in two |
| PassingLeaves.ConditionIsLost | expr/if.go:45-75 | a bounded IF on x next to SUM(a), grouped by y: a row with a = 2 comes out as 2 in one phase and unset in two |
| Crosstabs.CollectValues | core/group.go:184-194 | the values of the crosstab that occur, each once |
| Crosstabs.CrosstabFields | core/group.go:201-239 | at their places the IF columns of all values and fields, the totals if asked for, and last the field of HAVING, which is no column |
| Crosstabs.GroupCrosstab | core/group.go:113-246 | rows held back until all values are known are grouped with the columns of all of them, by the key that the crosstab leaves |
| Crosstabs.ColumnIsPart | core/group.go:210-228 | the IF column of a value, submerged from what is stored, holds what the rows with that value add to the field |
| Crosstabs.CrosstabConserves | core/group.go:201-246 | for every group, merging the IF columns of all values that occur gives the total of the field |
| Crosstabs.TreeConserves | core/group.go:201-246 | in every row of a crosstab, with and without GROUP BY, the cells of a field's columns merge into the cell of its total |
| Pushdown.PushdownAllowed | planner/cluster.go:96-172 | a query is accepted exactly if it is no crosstab, its first subquery neither that nor ordered or limited, and all levels group by `*` or all partition keys can be told from the answer; it fails exactly if the table is unknown and it was not refused before |
| Pushdown.AcceptsIff | planner/cluster.go:110-172 | the check of the levels, from the outermost in, accepts exactly if all group by `*`, or every partition key can be told, from the innermost level out, by a chain of expressions that are one to one in the next |
| Pushdown.GroupParams | planner/cluster.go:157-168 | the parameters that can be told from the known part of a level's key |
| Pushdown.PartSeesItsKeys | planner/cluster.go:174-189 | a partition answers for its keys as the whole table does, through all subqueries |
| Pushdown.PushdownIsSound | planner/cluster.go:174-189 | if outermost keys tell partitions apart and no subquery limits or is a crosstab, the answer is the disjoint union of the partitions' answers |
| Pushdown.AcceptedTells | planner/cluster.go:96-172 | outermost keys of an accepted query tell partitions apart, unless a level has expressions next to `*` or is a crosstab |
| Pushdown.SafeIff | planner/cluster.go:96-172 | for levels over any rows: a query may be pushed down, for all data, limits and partitions, exactly if no subquery orders or limits, no level is a crosstab, and outermost keys tell the partition keys |
| Partitioning.PushedIff | insert.go:139-210 | for a table that partitions entries by their own dimensions and then groups them: a query may be pushed down exactly if no subquery orders or limits, no level is a crosstab, and outermost keys tell the partition keys of entries |
| Partitioning.AllowedIsSafeIff | planner/cluster.go:96-172 | over a table whose rows keep the partition keys of entries, an accepted query without expressions next to `*` may be pushed down exactly if no subquery orders or limits and none is a crosstab |
| Partitioning.AcceptedAreSafeIff | cluster_follow.go:806-821 | all accepted queries that are not wrong by their own clauses may be pushed down exactly if rows of the table that agree on the partition keys come from entries that do |
| Partitioning.KeyedTableKeepsPlaces | insert.go:194-210 | that is so for a table without GROUP BY, or with an expression for each partition key that is named like it and one to one |
| Partitioning.NestedLimitIsAccepted | planner/cluster.go:102-108 | a query with a limit two levels down is accepted and may not be pushed down |
| Partitioning.NestedCrosstabIsAccepted | planner/cluster.go:102-108 | a query with a crosstab two levels down is accepted and may not be pushed down |
| Partitioning.MixedStarIsAccepted | planner/cluster.go:110-172 | `GROUP BY *, y` is accepted and may not be pushed down |
| Partitioning.GroupedTableIsAccepted | insert.go:194-210 | `SELECT *` of a table that groups by y and has no partition keys is accepted and may not be pushed down |
| Ordering.Less | core/sort.go:98-130 | for all criteria: a row comes before another exactly if some criterion puts it there, ascending or descending, and by all before it they have the same value, or times that go the other way |
| Ordering.LessIsLex | core/sort.go:98-130 | with time last it is the lexicographic comparison |
| Ordering.LessMeaning | core/sort.go:98-130 | with time last, a row comes before another exactly if at the first criterion in which they differ its value or time is smaller, or larger when descending |
| Ordering.OrderIsSoundIff | core/sort.go:98-130 | it is a strict weak order on all rows exactly if nothing of effect follows a time criterion |
| Ordering.RowsAreOrderedIff | core/sort.go:98-130 | any two rows compare, and comparing is transitive, exactly if nothing of effect follows a time criterion |
| Ordering.TimeFirstIsNoOrder | core/sort.go:98-130 | ordered by time and then by a, two rows each come before the other |
| Ordering.LimitIsTop | core/limit.go:21-31 | limiting a sorted list gives a top of its rows |
| Ordering.TopOfTops | planner/planner.go:69-83 | a top of the union of the partitions' tops is a top of all rows |
| Ordering.Paged | core/offset.go:21-34 | skipping and limiting gives the rows from an index on, at most so many |
| Ordering.PushedLimitIsPage | planner/planner.go:69-83 | without an offset, a page of the union of the partitions' pages is a page of all rows |
| Ordering.PushedOffsetLosesRow | planner/planner.go:69-83 | for every offset, rows in one of several partitions of which the query should give one and gives none |
| Ordering.OffsetIsSafeIff | planner/planner.go:69-83 | LIMIT and OFFSET may be pushed down to any number of partitions, whatever their rows, exactly if the offset is 0 |

## Left out

- Parsing of SQL and expressions, the web, RPC and command line layers, metrics, and the libraries for dimensions, logs, compression and external sorting: inputs and outputs of the model.
- PERCENTILE, LN, LOG2 and LOG10, RANDOM and other functions of dimensions: they would add members without new interplay.
- Rounding, overflow and NaN of floating point numbers: arithmetic is exact, so the laws of SUM and averages are those of the reals.
- Values returned by `Update` beside the new state: only `BOUNDED` reads them, and only of stateless operands.
- ByteTree.Tree.Copy: the data of a node is a value here; `SharedRows` has the tree with rows that are shared and written in place.
- SharedRows.CopyFollows: an update is one step, so a reader that sees some columns of a row before and some after an update is not modelled.
- Sequences.UpdateValueMeaning: for periods after the zero time.  Updates and merges in place are modelled on values; that callers may see a reused buffer change is not.
- Sequences.MergeMeaning: both sequences are on the same grid, as all sequences of a table are; the code does not check it.
- Rebucketing.SubMerge: the resolution of the query is a multiple of that of the input, both are on one grid, and shifts look back by whole periods; other shifts are not modelled.  Strides are, and windows of any length.
- SubMergers.SubMergersRebuild: stored expressions have different names (`StoredLeaves` and `CopiesAreMerged` say what happens otherwise), and conditions evaluated on a row's dimensions agree with those of its points.  The states of a stored SHIFT are taken to be shifted; an update stores them unshifted (expr/shift.go:33-35), and `Columns` excludes stored shifts.
- SubMergers.MatchesIff: what expressions print as is a tree of texts; that the name of a field or a condition could read like another expression, and that a constant of -0 prints with its sign, is not modelled.
- RowJoin.Iterate: memory is a map from keys to columns and readers take all; `TreeJoin.IterateTree` has the tree itself and readers that stop.
- TreeJoin.IterateTree: the context is one that nothing was removed for, as the source makes it from the time; errors of a reader are readers that stop.
- RowRuns.RunKeepsInvariant: only for safe keys, as the code loses rows otherwise (`LostRows.RunLosesRow`); what a file reads back as that has no room for a row is any rows.  Fields stay the same during a run, entries have at least one value, a flush is not sorted (`RowStore.SortedFlushKeeps` says what a sorted one does), and a third failed attempt, which ends the process, ends the run.  Removal of old files, capping of memory and damaged files are not modelled.
- LostRows.FlushHoldsIff: not for the empty key, and for rows that go by different names; a file with several rows of one key is not modelled further.
- RowPartial.FlushInsideEntry: for flushes that lose no key; `LostRows` has the others.
- RowStore.DoWrite: the optional filter of rows is not modelled, the row store never passes one.
- RowCodec.FileRoundTrips: only the current file version; the older single-offset version is not modelled.
- Following.RunKeepsInvariant: one stream and one leader; a follower that restarts begins a new run from the offsets it recovers; tables that subscribe after following has started and the maximum age of followed entries are not modelled.
- Pipelining.RunKeepsOrder: entries that are too large and are dropped, and workers that panic, are not modelled.
- Regrouping.GroupRows: a group has one result period; `Columns.AddRow` says what each period takes from the periods of a row.  Deadlines are not modelled.
- Crosstabs.CrosstabConserves: no stored field prints like a column; one that does is taken for it whole, as `SubMergersOf` has it.  The order of the columns and their names are not modelled.
- Following.MemoIsRightIff: only the letters A to Z are lower-cased.
- Partitioning.PushedIff: a WHERE with a subquery is not modelled; a partition is any function of the partition keys, where the source hashes the bytes of their values one after the other.
- Ordering.TopOfTops: the answers of the partitions are sorted lists; how results are streamed to the leader is not modelled.
