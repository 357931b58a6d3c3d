# Equivalence-relation store and interpreter-generator bookkeeping, in Dafny

This project models two pieces of the Soufflé Datalog engine and proves
properties of them.

**`BinaryRelation`** is the store behind equivalence relations. It keeps a
binary relation over integers as a union-find partition, which is the source
of truth. On top of that sits a derived cache, `orderedStates`, which maps
each class representative to a bucket listing the class's members. A
staleness flag says when the cache may no longer be trusted.

The model covers:
- the mutators `insert`, `insertAll`, `extend` and `clear`;
- the queries `contains` and `size`;
- the cache rebuild `genAllDisjointSetLists`;
- the iterator with its four modes (ALL, ANTERIOR, ANTPOST, WITHIN), `begin` and `end`;
- the single-class iterators `anteriorIt`, `antpostit` and `closure`;
- the prefix search `getBoundaries`;
- the splitting of the enumeration for parallel readers, `partition`.

**`NodeGenerator`** (the interpreter's node generator) contributes three
pieces:
- the ordering context (`addNewTuple`, `insertOrder`, `mapOrder`). It stores, per tuple id, the decode table of an index order.
- the memoised id allocators for views and relations (`newQueryBlock`, `getNextViewId`, `encodeView`, `getNewRelId`, `encodeRelation`).
- the bound filling of `getIndexSuperInstInfo` and `getExistenceSuperInstInfo`.

Everything is an immutable datatype with pure functions, except the bound
filling, which is a method with a loop.
- The union-find structure is an abstract partition, `DisjointSets.Forest`. It maps each known element to its representative and records the dense-slot order the cache rebuild scans.
- The cache is `StatesCache.BucketCache`. Its key order stands for the hash map's iteration order.
- A relation is `BinaryRelation.EqRel` (id, partition, cache, flag).
- Queries that refresh the cache in the source read `Fresh(r)`, the cache the refresh would produce. The refresh is idempotent, so this is what every later query sees.
- Operations that can fail in the source return `Results.Result`. These are incrementing an end iterator, meeting an empty bucket, a cache lookup that finds no bucket, and a prefix search over more than two columns.

The code and its documentation disagree on `insert`. The doc comments at
src/BinaryRelation.h:62 and src/BinaryRelation.h:74 say it returns whether
the pair is new. The code returns whether the pair
was already present. `BinaryRelation.Insert` follows the code. The
documented behaviour is `BinaryRelation.InsertReportingNew` (see Findings).

Modules, one per file:
- `results.dfy`: `Results` (errors, option, result) and `SeqFacts`.
- `disjoint_sets.dfy`: the union-find partition.
- `pair_enum.dfy`: the reference enumeration of a relation's pairs, class by class.
- `states_cache.dfy`: the bucket cache and its rebuild.
- `pair_iterator.dfy`: the iterator.
- `binary_relation.dfy`: the relation and its basic operations.
- `relation_ranges.dfy`: single-class iterators, `getBoundaries`, `partition`.
- `relation_merge.dfy`: `insertAll`, `extend`.
- `tuple_orders.dfy`: the ordering context.
- `id_tables.dfy`: the view and relation id tables.
- `super_instructions.dfy`: bound filling.

## Model

| member | source | states |
|---|---|---|
| DisjointSets.Union | src/BinaryRelation.h:80 | Uniting x and y relates them, keeps every earlier pair related, and adds only x and y to the domain. |
| DisjointSets.UnionMergesOnlyTheTwoClasses | src/BinaryRelation.h:76-82 | After a union, a pair is related iff it was related before or both sides lie in the class of x or of y. Only those two classes merge. |
| DisjointSets.UnionStaysWithin | src/BinaryRelation.h:96-99 | A union of two elements that an equivalence already relates never relates more than that equivalence. |
| BinaryRelation.New | src/BinaryRelation.h:36 | A new relation knows no element and starts with the staleness flag clear. |
| BinaryRelation.Contains | src/BinaryRelation.h:149-156 | (x, y) is contained only when both x and y are known, and (x, x) is contained exactly when x is known. |
| BinaryRelation.ContainsIsEquivalence | src/BinaryRelation.h:144-156 | `contains` is reflexive exactly on known elements, symmetric and transitive. |
| BinaryRelation.Insert | src/BinaryRelation.h:76-82 | Insert sets the flag and makes (x, y) related. It merges only the classes of x and y. It returns whether (x, y) was related before the call. |
| BinaryRelation.InsertReportsPresenceNotNovelty | src/BinaryRelation.h:58-82 | On an empty relation, inserting (1, 2) adds a pair, yet the code's flag is false. The documented flag is true. |
| BinaryRelation.InsertReportingNew | src/BinaryRelation.h:58-63 | The documented insert: its flag is true iff the relation gained some pair. |
| BinaryRelation.InsertReportingNewRepeat | src/BinaryRelation.h:58-63 | Repeating an insertion reports no new pair and changes no pair. |
| BinaryRelation.InsertIsIdempotent | src/BinaryRelation.h:76-82 | A second insert of the same pair reports it present and leaves the partition unchanged. |
| BinaryRelation.Clear | src/BinaryRelation.h:158-166 | Clear empties the domain and cache and leaves the staleness flag as it was. The result is still coherent. |
| BinaryRelation.ClearEmpties | src/BinaryRelation.h:158-186 | After clear the size is 0 and begin equals end, whatever the flag was. |
| BinaryRelation.Regenerate | src/BinaryRelation.h:193-258 | With the flag clear the rebuild changes nothing. Otherwise it clears the flag and leaves a cache matching the partition. |
| BinaryRelation.RegenerateRestoresCache | src/BinaryRelation.h:193-258 | A rebuild of a coherent relation leaves a matching cache, and a second rebuild is a no-op. |
| BinaryRelation.RebuiltCacheIsPartition | src/BinaryRelation.h:202-254 | After the rebuild, every known element is in exactly one bucket, the one keyed by its representative. Buckets are non-empty and list each member once. Every key is a representative. |
| BinaryRelation.SizeCountsRelatedPairs | src/BinaryRelation.h:172-186 | The size (sum of squared bucket sizes) is the number of related pairs. The enumeration lists exactly the related pairs, each once. |
| BinaryRelation.Size | src/BinaryRelation.h:168-186 | The size is positive exactly when the relation knows some element. |
| BinaryRelation.Begin | src/BinaryRelation.h:533-536 | begin refreshes the cache and yields a well-formed iterator of this relation. When not at the end, it is in ALL mode over the refreshed buckets, with every cursor at 0. |
| BinaryRelation.BeginEnumeratesRelation | src/BinaryRelation.h:449-544 | Walking from begin to end yields the enumeration in bucket, anterior, posterior order. It takes `size` steps, and begin equals end iff the relation is empty. |
| StatesCache.Build | src/BinaryRelation.h:202-254 | The full rebuild over all dense slots yields a cache that matches the partition. |
| StatesCache.BuildPrefixMatches | src/BinaryRelation.h:209-249 | After the rebuild loop has processed slots 0..n-1, the cache matches the partition on those slots. |
| StatesCache.AddStep | src/BinaryRelation.h:210-248 | Insert-or-fetch of the bucket under the slot's representative, then appending the slot's element, extends the matched prefix by one slot. |
| StatesCache.BucketIsClass | src/BinaryRelation.h:202-254 | In a matching cache a bucket holds exactly the members of its key's class, and its key is a representative. |
| StatesCache.MatchingBucketsDisjoint | src/BinaryRelation.h:202-254 | The buckets of a matching cache are non-empty, duplicate-free and pairwise disjoint. |
| StatesCache.EnumerationIsRelation | src/BinaryRelation.h:172-186 | The pair enumeration of a matching cache holds exactly the related pairs, without repetition. |
| PairEnum.FlattenLength | src/BinaryRelation.h:178-183 | The enumeration of buckets k, k+1, ... has the sum of their squared sizes as length. |
| PairEnum.FlattenDistinct | src/BinaryRelation.h:449-487 | Over disjoint duplicate-free buckets, the ALL enumeration never repeats a pair. |
| PairEnum.FlattenMembers | src/BinaryRelation.h:449-487 | A pair is enumerated iff both components lie in one bucket. |
| PairEnum.SumSquaresBound | src/BinaryRelation.h:178-183 | Each bucket's squared size is at most the size sum. |
| PairIterator.IterAll | src/BinaryRelation.h:352-366 | The ALL iterator is the end iterator iff there are no buckets. Otherwise it walks the given buckets in ALL mode, starting with bucket, anterior and posterior cursors at 0. |
| PairIterator.IterWithin | src/BinaryRelation.h:369-378 | The WITHIN iterator over a bucket is the end iterator iff the bucket is empty. Otherwise it walks that one bucket in WITHIN mode from cursors 0. |
| PairIterator.IterAnterior | src/BinaryRelation.h:381-389 | The ANTERIOR iterator is the end iterator iff the bucket is empty. Otherwise it walks that one bucket in ANTERIOR mode with the first component fixed to `former`, from posterior cursor 0. |
| PairIterator.IterAntPost | src/BinaryRelation.h:393-402 | The ANTPOST iterator is the end iterator iff the bucket is empty. Otherwise it is in ANTPOST mode and its current pair is (former, latter). |
| PairIterator.Next | src/BinaryRelation.h:449-525 | Incrementing the end iterator fails. An increment keeps the owner, mode and buckets and stays well-formed. It only fails on a non-end iterator when some bucket is empty. |
| PairIterator.Eq | src/BinaryRelation.h:431-434 | Equal iterators are both at the end or both active. Two active iterators are equal exactly when their current pairs agree, whatever their owners. |
| PairIterator.EqIsEquivalence | src/BinaryRelation.h:431-438 | Iterator equality is reflexive, symmetric and transitive. |
| PairIterator.EqEndIff | src/BinaryRelation.h:431-434 | An iterator equals a relation's end iterator iff it is that end iterator. End iterators of different owners differ, and no active iterator equals an end. |
| PairIterator.WalkYieldsExpected | src/BinaryRelation.h:449-525 | Over non-empty buckets, incrementing until the end yields exactly the pairs the reference enumeration says remain. |
| PairIterator.AllVisitsEveryPairOnce | src/BinaryRelation.h:453-487 | ALL mode visits each bucket's square in turn, so its step count is the sum of the squared bucket sizes. |
| PairIterator.WithinYieldsSquare | src/BinaryRelation.h:502-521 | WITHIN mode yields the |B|² pairs of its bucket B, anterior-major. |
| PairIterator.AnteriorYieldsRow | src/BinaryRelation.h:488-496 | ANTERIOR mode yields |B| pairs, (former, y) for each y of the bucket in order. |
| PairIterator.AntPostYieldsOne | src/BinaryRelation.h:497-501 | ANTPOST mode yields exactly its one pair. |
| RelationRanges.AnteriorIn | src/BinaryRelation.h:609-623 | The ANTERIOR iterator read from a cache is well-formed and owned by the relation. The only failure is a missing bucket. |
| RelationRanges.AnteriorIt | src/BinaryRelation.h:609-623 | anteriorIt fails only with a missing bucket. Otherwise it yields a well-formed iterator of this relation which, unless at the end, is in ANTERIOR mode with first component x. |
| RelationRanges.AntPostIt | src/BinaryRelation.h:625-650 | antpostit yields end() when x and y are not related. It fails only with a missing bucket. Otherwise it yields a well-formed iterator of this relation which, unless at the end, is in ANTPOST mode at the pair (x, y). |
| RelationRanges.Closure | src/BinaryRelation.h:657-670 | closure fails only with a missing bucket. Otherwise it yields a well-formed iterator of this relation which, unless at the end, is in WITHIN mode. |
| RelationRanges.LookupByRepresentative | src/BinaryRelation.h:654-666 | Looked up through its representative, a known element finds exactly its class: non-empty and duplicate-free. |
| RelationRanges.RawKeyAgreesOnRepresentatives | src/BinaryRelation.h:617 | Looking a representative up under itself finds the same bucket as through its representative. |
| RelationRanges.RawKeyFailsOffRepresentatives | src/BinaryRelation.h:617-618 | Looking a known non-representative up under itself finds no bucket. |
| RelationRanges.ClosureOfKey | src/BinaryRelation.h:657-670 | The closure of a cache key walks exactly that key's bucket, its full square. |
| RelationRanges.ClosureYieldsClass | src/BinaryRelation.h:652-670 | Through the representative, the closure of a known element yields exactly the pairs of its class. |
| RelationRanges.GetBoundaries | src/BinaryRelation.h:571-601 | A successful prefix search yields a well-formed range ending at this relation's end iterator. |
| RelationRanges.GetBoundariesUnboundAndInvalid | src/BinaryRelation.h:575-598 | With no bound column the range is the whole enumeration. More than two bound columns fail. |
| RelationRanges.GetBoundariesFirstBound | src/BinaryRelation.h:580-586 | With lookups through representatives and the first column bound, the range yields exactly the pairs (entry.0, y) of the relation, each once. It is empty for an unknown element. |
| RelationRanges.GetBoundariesBothBound | src/BinaryRelation.h:588-594 | With lookups through representatives and both columns bound, the range yields the entry itself if it is related, and nothing otherwise. |
| RelationRanges.GetBoundariesAbsentIsEmpty | src/BinaryRelation.h:580-594 | Under either lookup, including the code as written, a search with the first column bound on an unknown element, or with both columns bound on an unrelated pair, returns the empty range [end, end). |
| RelationRanges.GetBoundariesRawKeyFails | src/BinaryRelation.h:582-593 | As written, a search bound on a known non-representative (one column), or on a related pair whose second element is not a representative (two columns), fails with a missing bucket. |
| RelationRanges.AnteriorRanges | src/BinaryRelation.h:703-705 | Splitting a bucket per member yields well-formed ranges, or the missing-bucket failure. |
| RelationRanges.BucketRanges | src/BinaryRelation.h:700-708 | The ranges for one bucket are well-formed; the only failure is a missing bucket. |
| RelationRanges.AnteriorRangesCover | src/BinaryRelation.h:703-705 | Through representatives, the per-member ranges of a bucket are non-empty and read the bucket's rows i, i+1, ... |
| RelationRanges.AnteriorRangesFormers | src/BinaryRelation.h:703-705 | Range l of a split bucket starts the ANTERIOR walk of member i+l. |
| RelationRanges.BucketRangesCover | src/BinaryRelation.h:699-708 | A bucket of s members is cut into s ANTERIOR ranges iff s² exceeds the per-chunk share, otherwise it stays one WITHIN range. Either way its ranges read its square. |
| RelationRanges.SplitBucketsCover | src/BinaryRelation.h:698-709 | The split path's ranges are non-empty and read buckets j, j+1, ... in order. |
| RelationRanges.WithinRangesCover | src/BinaryRelation.h:690-694 | One WITHIN range per bucket reads the enumeration of buckets j, j+1, ... |
| RelationRanges.PartitionOfEmpty | src/BinaryRelation.h:684-685 | Under either lookup (as written or through representatives), an empty relation is partitioned into no ranges. |
| RelationRanges.Partition | src/BinaryRelation.h:680-709 | partition fails only with a missing bucket. Otherwise every range it returns starts at a well-formed iterator. |
| RelationRanges.PartitionSingleRange | src/BinaryRelation.h:686 | Under either lookup, with one pair or at most one chunk, the partition is the single range [begin, end), which reads the whole enumeration. |
| RelationRanges.PartitionPerClass | src/BinaryRelation.h:688-695 | Under either lookup, with no more chunks than classes, the partition is one WITHIN range per class, together reading the whole enumeration. |
| RelationRanges.PartitionCoversEnumeration | src/BinaryRelation.h:680-748 | With lookups through representatives, partition always succeeds. It hands out no empty range, and its ranges read in order are exactly the full enumeration. |
| RelationRanges.PartitionRawKeyFails | src/BinaryRelation.h:697-705 | As written, partition fails when there are more chunks than classes and some class of two or more members holds more pairs than the per-chunk share. |
| RelationRanges.RawKeyCounterexample | src/BinaryRelation.h:609-623 | After insert(1, 2), getBoundaries on (2, _) and on (1, 2), and partition(2), fail as written. The lookups through representatives succeed. |
| RelationMerge.UniteAll | src/BinaryRelation.h:95-100 | Uniting a key with every member of a bucket relates them all to the key and keeps earlier pairs. It adds only the key and the members to the domain. |
| RelationMerge.UniteBuckets | src/BinaryRelation.h:90-101 | Uniting along buckets relates each key to all of its bucket's members and keeps earlier pairs. |
| RelationMerge.InsertAll | src/BinaryRelation.h:88-104 | insertAll leaves a coherent relation with the flag set. |
| RelationMerge.InsertAllIsJoin | src/BinaryRelation.h:88-104 | After insertAll, every pair of either relation is related, and the domain is the union of both domains. |
| RelationMerge.InsertAllIsLeast | src/BinaryRelation.h:88-104 | Any equivalence containing both relations contains the result of insertAll, so the result is their join. |
| RelationMerge.InsertAllIntoEmptyCopies | src/BinaryRelation.h:88-104 | insertAll into an empty relation copies the other relation's pairs exactly. |
| RelationMerge.ExtendBucket | src/BinaryRelation.h:121-137 | Scanning a class of this relation absorbs, for the first member the other relation knows, that member's whole class there. With the full scan it does so for every such member. |
| RelationMerge.Extend | src/BinaryRelation.h:113-141 | extend sets the flag, keeps every pair, and adds only elements the other relation knows. |
| RelationMerge.ExtendStaysWithinJoin | src/BinaryRelation.h:113-141 | extend never relates more than any equivalence containing both relations. |
| RelationMerge.ExtendImportsOnlyMeetingClasses | src/BinaryRelation.h:106-141 | A class of the other relation that shares no element with this relation is not imported. |
| RelationMerge.ExtendAbsorbsFirstShared | src/BinaryRelation.h:121-137 | For each class of this relation, the whole other-class of its first shared member (in bucket order) is absorbed. |
| RelationMerge.ExtendScanAllAbsorbsEveryShared | src/BinaryRelation.h:106-112 | With every member scanned, each element both relations know becomes related to its whole class in the other relation. |
| RelationMerge.ExtendStopsEarlyCounterexample | src/BinaryRelation.h:135 | For this = {1, 2} and other = {1, 10}, {2, 20}, the code's early stop leaves (2, 20) unrelated although 2 is shared. The full scan relates it. |
| TupleOrders.DecodePrefixWritten | src/interpreter/Generator.cpp:755-758 | After the first n rounds of the scatter loop, entry order[i] names a round that wrote that column. For a permutation that round is i itself. |
| TupleOrders.InsertOrder | src/interpreter/Generator.cpp:750-761 | insertOrder grows the table to cover the tuple id and stores a table as long as the order. Every other tuple's entry is unchanged, or empty where the table grew. Every stored entry stays a position of its table. |
| TupleOrders.MapOrder | src/interpreter/Generator.cpp:746-748 | In a context whose every stored entry is a position of its table (true of the empty context and kept by insertOrder and addNewTuple), mapOrder returns a position of the tuple's index order. |
| TupleOrders.InsertOrderInverts | src/interpreter/Generator.cpp:746-761 | For a permutation, mapOrder(t, order[i]) == i after insertOrder(t, order): the stored table is the inverse. |
| TupleOrders.InsertOrderFindsAPosition | src/interpreter/Generator.cpp:746-761 | Even with a repeated column, mapOrder of a used column gives a position holding that column. |
| TupleOrders.AddNewTuple | src/interpreter/Generator.cpp:724-730 | addNewTuple grows the table like insertOrder and stores a table with one entry per column. Every stored entry stays a position of its table. |
| TupleOrders.AddNewTupleIsIdentity | src/interpreter/Generator.cpp:724-730 | After addNewTuple(t, n), mapOrder(t, i) == i for every i < n. |
| IdTables.Encode | src/interpreter/Generator.cpp:521-529 | A memo lookup returns the stored id of a seen key unchanged. A new key gets the next id, which is stored and advances the counter. Other keys are untouched, and ids stay dense and distinct. |
| IdTables.EncodeIsIdempotent | src/interpreter/Generator.cpp:521-529 | Encoding a key a second time returns the same id and changes nothing. |
| IdTables.EncodeSeparatesKeys | src/interpreter/Generator.cpp:521-529 | In a dense table, two different keys get different ids. |
| IdTables.NewQueryBlock | src/interpreter/Generator.cpp:495-498 | A new query block empties the view table and resets the view counter to 0, leaving the relation table alone. |
| IdTables.GetNextViewId | src/interpreter/Generator.cpp:504-506 | The next view id is the current counter, which then advances by one. |
| IdTables.GetNewRelId | src/interpreter/Generator.cpp:500-502 | The next relation id is the current counter, which then advances by one. |
| IdTables.EncodeView | src/interpreter/Generator.cpp:521-529 | encodeView is the memo lookup on the view table, and keeps the generator's invariant. |
| IdTables.EncodeRelation | src/interpreter/Generator.cpp:542-551 | encodeRelation is the memo lookup on the relation table. A new name is appended to the creation log under its new id. |
| IdTables.EachRelationCreatedOnce | src/interpreter/Generator.cpp:542-551 | However names are encoded, the creation log never repeats a name and holds every name encoded so far. |
| IdTables.RelationsLogged | src/interpreter/Generator.cpp:542-551 | Encoding names only extends the creation log, and every encoded name ends up in it. |
| IdTables.ViewIdsRestartPerBlock | src/interpreter/Generator.cpp:495-529 | Within a query block, the view table holds exactly the nodes encoded since the block began, under distinct ids 0 .. k-1. |
| IdTables.ViewsCollected | src/interpreter/Generator.cpp:521-529 | Encoding nodes adds exactly those nodes to the view table. |
| SuperInstructions.Encoded | src/interpreter/Generator.cpp:583-586 | Position i of the pattern in index order holds the value of column order[i]. |
| SuperInstructions.FillBounds | src/interpreter/Generator.cpp:582-641 | One side of the bounds is filled as follows. An undefined value gets the unbounded constant, and a constant is copied. Tuple elements are recorded in position order with their column decoded by mapOrder. Expressions are recorded in position order. |
| SuperInstructions.IndexBounds | src/interpreter/Generator.cpp:576-643 | Index-scan bounds: an undefined low bound becomes MIN_RAM_SIGNED and an undefined high bound MAX_RAM_SIGNED, and constants are copied. On a position with both bounds set, a domain value lies between them iff the pattern admits it. |
| SuperInstructions.ExistenceBounds | src/interpreter/Generator.cpp:645-690 | Existence-check bounds: an undefined value spans [MIN_RAM_SIGNED, MAX_RAM_SIGNED], a constant c gives [c, c], and references are recorded on the first side only. On a bound position, a domain value lies between the bounds iff the pattern value is undefined or equals it. |

## Left out

- Concurrency. OpenMP loops are read as sequential loops. The shared mutex, the atomic flag's memory orders, and the concurrent hash map's accessors and `rehash` (src/BinaryRelation.h:253) are not modelled, because in a single thread they do not change the results.
- The union-find primitive (`SparseDisjointSet`, its sparse/dense tables, path compression, ranks) is not part of this model. It is abstracted as a representative map plus the dense-slot order.
- DisjointSets.Union: the merged class always keeps x's representative. The real primitive picks by rank, so which representative survives is fixed here rather than left open.
- Hash-map iteration order is abstracted as the order in which the rebuild first meets each representative. The real order is whatever the hash map yields; nothing proved depends on it except the listed order of the enumeration.
- The double-checked insert-or-fetch in the rebuild (src/BinaryRelation.h:219-248) is modelled as a plain insert-or-fetch. `genDJSetList` is not modelled: nothing in the modelled code calls it.
- `BinaryRelation::operator=` is not modelled. Its own comment questions its purpose and correctness, and nothing in the modelled code uses it.
- `size()` is computed with unbounded integers. The source's `size_t` sum would wrap past 2^64 pairs, which the model does not represent.
- Iterator dereference (`operator*`, `operator->`) and `operator!=` are not separate members. The current pair is a field of the iterator, and `!=` is the negation of `Eq`.
- In the source a lookup that finds no bucket trips an `assert` (src/BinaryRelation.h:618, 644, 665) and then dereferences an empty accessor. The model returns the missing-bucket failure instead.
- Every range built here ends at the owner's end iterator, as in the source. Ranges with another `last` are not modelled.
- The WITHIN and ANTERIOR constructors on an empty bucket still read the bucket's first element (src/BinaryRelation.h:376-377 and :388). The model yields the end iterator without that read. A rebuilt cache never holds an empty bucket, so this case does not arise from the relation's own calls.
- In the generator, relation metadata (`lookup`, `getArity`, `relationMap`) and index selection (`encodeIndexPos`, `getIndexOrder`) are outside the model. The index order is a parameter, and the arity is its length. `engine.createRelation` is modelled as appending the name to a creation log.
- SuperInstructions.IndexBounds: does not model the `encodeRelation` call at src/interpreter/Generator.cpp:578, and SuperInstructions.ExistenceBounds does not model the one at :646. For a relation not seen before, that call allocates an id and appends to the creation log. Here the index order and the ordering context are parameters, and the bound filling neither reads nor changes the id tables; `IdTables.EncodeRelation` models that call on its own.
- The ALL iterator holds the bucket list it was created from. The source holds a live hash-map iterator (src/BinaryRelation.h:354), which a later cache rebuild invalidates. The model does not represent that invalidation, so it promises nothing about iterators that outlive a mutation.
- The `visit_` translations of RAM nodes are not modelled. A general expression is an opaque id (`Expr(exprId)`).
- The `fatal` for an unrecognised existence-check kind is not modelled. Both kinds are treated alike.
- The super-instruction's initial slot values come from its constructor, and Node.h is not part of this model. A slot the generator does not set is `Untouched` rather than a number.
- MIN_RAM_SIGNED and MAX_RAM_SIGNED are taken as the 32-bit signed bounds. RamTypes.h is not part of this model.
- TupleOrders.MapOrder: requires the tuple id and column to be in range. The source indexes the vectors unchecked, where an out-of-range read is undefined behaviour.
- TupleOrders.InsertOrder: requires every order entry to name a column. The source writes `decodeOrder[order[i]]` unchecked. The `uint32_t` narrowing of positions is not modelled, since positions are below the arity.
- Engine.h (declarations and thread and profiling settings) and ReorderConditions.cpp (an AST rewrite) are not part of this model.

## Findings

| source | as written | input that shows it | evidently intended | confidence | as-written member | corrected member |
|---|---|---|---|---|---|---|
| src/BinaryRelation.h:617 | `anteriorIt` looks the bucket up under the element it is given. `partition` calls it with every member of a split bucket (:703-705), but the cache is keyed by representatives. | `insert(1, 2)`, then `partition(2)`: there is one class of 4 pairs, so the share is 2 and the class is split. One of 1 and 2 is not the representative, and its lookup finds no bucket. | Look the bucket up under the element's representative, as `extend` does at :126. | high; not executed | RelationRanges.RawKeyCounterexample | RelationRanges.PartitionCoversEnumeration |
| src/BinaryRelation.h:643 | `antpostit` looks the bucket up under the second element itself. `getBoundaries<2>` (:593) reaches it for any related pair. | `insert(1, 2)`, then `getBoundaries<2>` on (1, 2) or (2, 1): whichever has a non-representative second element finds no bucket. | Look the bucket up under the second element's representative. | high; not executed | RelationRanges.GetBoundariesRawKeyFails | RelationRanges.GetBoundariesBothBound |
| src/BinaryRelation.h:79-81 | `insert` returns `contains(x, y)` from before the union. The comments at :62 and :74 say it returns whether the pair is new. | `insert(1, 2)` on an empty relation adds the pair but returns false. | Return true exactly when the pair was not yet related. | medium; not executed | BinaryRelation.InsertReportsPresenceNotNovelty | BinaryRelation.InsertReportingNew |
| src/BinaryRelation.h:135 | `extend` stops scanning a class at its first member that the other relation knows. The comment at :107-110 promises that the other-class of every shared element is imported. | this = {1, 2} with bucket [1, 2], other = {1, 10}, {2, 20}: after `extend`, (2, 20) is not related although 2 is in both. | Scan every member of the class, importing each shared member's class. | medium; not executed | RelationMerge.ExtendStopsEarlyCounterexample | RelationMerge.ExtendScanAllAbsorbsEveryShared |
