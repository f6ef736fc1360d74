# A verified model of the demo application's utility core

This project models, in Dafny, the parts of the demo web application that
hold behaviour of their own:

- **`ConcurrentReferenceHashMap`**, a lock-striped hash map whose entries are
  held through soft or weak references. A fixed array of segments is chosen
  by the high bits of a mixed hash. Each segment keeps:
  - a power-of-two array of reference chains;
  - a count and a resize threshold;
  - a queue of references the collector (or a removal) has cleared.

  Every mutation is a task run by the segment's `doTask`, under option
  flags: restructure before, restructure after, skip if empty, resize.
  `restructureIfNecessary` drains the queue, purges the dead references,
  may double the bucket array, and fixes the count. Also modelled:
  - the entry iterator and the entry set's `contains` and `remove`;
  - the static helpers `getHash`, `calculateShift`, `nullSafeEquals`, the
    `nullSafeHashCode` overloads and the `hashCode` helpers.
- **`Configs`**: the flattening of a loaded YAML document into a table of
  dotted keys (`server.port`, `hosts[0]`), and the `getString` and
  `getInt` lookups over that table.
- **`BeanUtils`**: the setter name of a field, the search for a method by
  name, and the choice of date pattern in `parseDate`.
- **`BasePage`**: the paging and ordering parameters of a query page, and
  the `Pager` it fills in.
- **`PlatformUtils`**: the table from JDBC driver names to platform names,
  and its lookup.

The map is modelled sequentially. A segment's bucket array is a Dafny
`array` of chains, and each chain is a sequence of references
`Ref(id, hash)`. The referent of each reference still alive is kept in a
map from reference id to `Entry`. `release()` removes that map entry and
enqueues the id. The collector clearing a soft or weak reference is the
explicit action `Reclaim`, which does the same. The map's abstract
contents are `Lookup(key)`: the value found by searching the key's bucket
in the key's segment.

Every operation that changes state is a method on a class. Its
postcondition gives the new `Lookup` in terms of the old one. The
postconditions of `doTask` (`Apply`) and of the operations that clear or
purge also give the counts: the key's segment counts its live entries and
every other segment's count is unchanged.
The restructuring is specified by a function on the bucket contents
(`Chains.Restructured`), and lemmas prove that it keeps every live entry
findable.

The YAML flattening is a method that fills a `FlatMap` object in the order
the Java puts its entries. It is specified by `Configs.Puts`, the sequence
of puts the traversal performs, applied to the map's old contents.

Modules, one per file:

| file | module | models |
|---|---|---|
| wrappers.dfy | Wrappers | `Option` (Java null) and `Result` (a thrown exception) |
| java_int.dfy | JavaInt | powers of two, masks and unsigned shifts on `int`, 32-bit wrap-around |
| hashing.dfy | Hashing | the static hash, shift, equality and hash-code helpers |
| chains.dfy | Chains | bucket chains as values: search, relinking, restructuring, insertion |
| segment.dfy | Segments | tasks and their options, and the `Segment` class |
| ref_map.dfy | RefMaps | the `ConcurrentReferenceHashMap` class and its constructor checks |
| entry_iterator.dfy | EntryIterators | the entry iterator, and the entry set's `contains` and `remove` |
| text.dfy | Text | `trim`, `isBlank`, `indexOf`, ASCII case mapping, `Integer.parseInt` and `toString` |
| configs.dfy | Configs | YAML flattening and the typed lookups |
| bean_utils.dfy | BeanUtils | setter names, method search, date-pattern choice |
| base_page.dfy | Paging | `Pager` and `BasePage` |
| platform_utils.dfy | Platforms | the driver table |

## Model

| member | source | states |
|---|---|---|
| Hashing.NullKeyHash | src/main/java/com/talkingdata/ecommerce/utils/ConcurrentReferenceHashMap.java:97-106 | example, one input: the null key (hash code 0) is spread to the fixed word 0xA78BAEF2 by the six wrapping shift/xor/add rounds |
| Hashing.GetHash | src/main/java/com/talkingdata/ecommerce/utils/ConcurrentReferenceHashMap.java:97-106 | definition: the six wrapping shift/xor/add rounds on `bv32`; its one pinned value is in `Hashing.NullKeyHash` |
| Hashing.CalculateShift | src/main/java/com/talkingdata/ecommerce/utils/ConcurrentReferenceHashMap.java:297-305 | the loop stops at the least number of doublings of 1 reaching min(minimum, maximum): 2^shift reaches it and 2^(shift-1) does not; 2^shift is below twice the maximum |
| Hashing.ShiftIsLeast | src/main/java/com/talkingdata/ecommerce/utils/ConcurrentReferenceHashMap.java:297-305 | no smaller exponent than the computed shift has a power reaching the minimum: the shift is the least such exponent |
| Hashing.ShiftAtMostBound | src/main/java/com/talkingdata/ecommerce/utils/ConcurrentReferenceHashMap.java:69-70 | when the maximum is 2^k (65536 for segments, 2^30 for buckets) the shift is at most k, so the size is a power of two at most the maximum |
| Hashing.SegmentIndexBound | src/main/java/com/talkingdata/ecommerce/utils/ConcurrentReferenceHashMap.java:293-295 | the segment index chosen for any hash is below the segment count 2^shift |
| Hashing.SegmentIndex | src/main/java/com/talkingdata/ecommerce/utils/ConcurrentReferenceHashMap.java:293-295 | definition of getSegmentForHash's index; its properties are in `Hashing.SegmentIndexBound`, `Hashing.SingleSegmentIndex` and `Hashing.SegmentIndexIsHighBits` |
| Hashing.SingleSegmentIndex | src/main/java/com/talkingdata/ecommerce/utils/ConcurrentReferenceHashMap.java:294 | with shift 0 Java's `>>> 32` shifts by nothing and the mask `& 0` sends every hash to segment 0 |
| Hashing.SegmentIndexIsHighBits | src/main/java/com/talkingdata/ecommerce/utils/ConcurrentReferenceHashMap.java:294 | for shift at least 1 the segment index is the top `shift` bits of the unsigned hash |
| Hashing.NullSafeEquals | src/main/java/com/talkingdata/ecommerce/utils/ConcurrentReferenceHashMap.java:797-820 | two nulls are equal, null never equals a value, and two values are equal exactly when they are the same value |
| Hashing.HashCodeBoolean | src/main/java/com/talkingdata/ecommerce/utils/ConcurrentReferenceHashMap.java:1045-1047 | true hashes to 1231 and false to 1237, and no other value is produced |
| Hashing.HashCodeLong | src/main/java/com/talkingdata/ecommerce/utils/ConcurrentReferenceHashMap.java:1069-1071 | a long hashes to the xor of its low and high 32-bit halves |
| Hashing.FoldHashesSnoc | src/main/java/com/talkingdata/ecommerce/utils/ConcurrentReferenceHashMap.java:1000-1013 | appending an element to an array adds exactly one `31 * hash + element` step to its hash |
| Hashing.ArrayHash | src/main/java/com/talkingdata/ecommerce/utils/ConcurrentReferenceHashMap.java:1000-1013 | a null array hashes to 0 and an empty one to the initial hash 7 |
| Hashing.NullSafeArrayHashCode | src/main/java/com/talkingdata/ecommerce/utils/ConcurrentReferenceHashMap.java:925-1043 | the loop of the boolean, byte, char, int, long and short array overloads computes the left-to-right fold of `31 * hash + element` from 7 (0 for null), each overload widening its elements as Java does |
| Hashing.NullSafeHashCode | src/main/java/com/talkingdata/ecommerce/utils/ConcurrentReferenceHashMap.java:870-923 | null hashes to 0, a plain object to its own hash code, a boolean, byte, char, short, int or long array to its overload's array hash over the widened elements, and an empty object array to the initial hash 7 |
| Hashing.ObjectArrayHash | src/main/java/com/talkingdata/ecommerce/utils/ConcurrentReferenceHashMap.java:910-918 | an object array hashes to the fold of its elements' null-safe hashes, as the `Object[]` overload computes it |
| JavaInt.AndMask | src/main/java/com/talkingdata/ecommerce/utils/ConcurrentReferenceHashMap.java:756-758 | masking with 2^s - 1 keeps the hash modulo 2^s, so it is below 2^s |
| JavaInt.TruncDiv | src/main/java/com/talkingdata/ecommerce/utils/ConcurrentReferenceHashMap.java:72 | Java's `long` division rounds toward zero: for a dividend a >= 0 the quotient q satisfies q * b <= a < q * b + b, and for a < 0 it satisfies q * b - b < a <= q * b <= 0 |
| JavaInt.Wrap32 | src/main/java/com/talkingdata/ecommerce/utils/ConcurrentReferenceHashMap.java:72 | a Java `int` result is the only value in the int range congruent to the exact result modulo 2^32 |
| Chains.GetIndexBound | src/main/java/com/talkingdata/ecommerce/utils/ConcurrentReferenceHashMap.java:756-758 | the bucket index `hash & (length - 1)` of a power-of-two array is always a valid index |
| Chains.GetIndex | src/main/java/com/talkingdata/ecommerce/utils/ConcurrentReferenceHashMap.java:756-758 | definition of `hash & (length - 1)`; its bound is in `Chains.GetIndexBound` |
| Chains.ChainFind | src/main/java/com/talkingdata/ecommerce/utils/ConcurrentReferenceHashMap.java:736-750 | a found reference is in the chain, has the hash, a live entry and the key; nothing is found exactly when no reference of the chain matches |
| Chains.RelinkMembers | src/main/java/com/talkingdata/ecommerce/utils/ConcurrentReferenceHashMap.java:716-721 | relinking into bucket x keeps exactly the old references that are live, not drained, and hash to x |
| Chains.RelinkSnoc | src/main/java/com/talkingdata/ecommerce/utils/ConcurrentReferenceHashMap.java:716-721 | a kept reference is pushed on the head of its new chain, so later references come first |
| Chains.RelinkNoneKept | src/main/java/com/talkingdata/ecommerce/utils/ConcurrentReferenceHashMap.java:716-721 | references that hash to another bucket add nothing to bucket x |
| Chains.FlattenMembers | src/main/java/com/talkingdata/ecommerce/utils/ConcurrentReferenceHashMap.java:710-722 | the walk over all buckets meets a reference exactly when some bucket holds it |
| Chains.FlattenStep | src/main/java/com/talkingdata/ecommerce/utils/ConcurrentReferenceHashMap.java:710-722 | the walk over the first i+1 buckets is the walk over the first i followed by bucket i |
| Chains.EarlierBucketsElsewhere | src/main/java/com/talkingdata/ecommerce/utils/ConcurrentReferenceHashMap.java:710-714 | when restructuring in place, the earlier buckets hold nothing bound for bucket i, so clearing bucket i loses nothing |
| Chains.Restructured | src/main/java/com/talkingdata/ecommerce/utils/ConcurrentReferenceHashMap.java:708-722 | the rebuilt table has exactly the requested length |
| Chains.RestructuredMember | src/main/java/com/talkingdata/ecommerce/utils/ConcurrentReferenceHashMap.java:708-722 | a rebuilt bucket holds exactly the old references that are live, not drained, and hash to it |
| Chains.RestructuredValid | src/main/java/com/talkingdata/ecommerce/utils/ConcurrentReferenceHashMap.java:708-722 | the rebuilt table keeps every reference in its hash's bucket, keeps hashes agreeing with keys, and keeps keys unique |
| Chains.RestructuredFindable | src/main/java/com/talkingdata/ecommerce/utils/ConcurrentReferenceHashMap.java:717-719 | every live reference that was not drained is found by findInChain at `hash & (newLength - 1)` |
| Chains.RestructuredLookup | src/main/java/com/talkingdata/ecommerce/utils/ConcurrentReferenceHashMap.java:684-734 | restructuring, resizing or not, leaves every key's value unchanged when the drained references are dead |
| Chains.ChainFindSameKeys | src/main/java/com/talkingdata/ecommerce/utils/ConcurrentReferenceHashMap.java:736-750 | the search depends only on which references are live and on their keys, not on their values |
| Chains.ChainFindAgree | src/main/java/com/talkingdata/ecommerce/utils/ConcurrentReferenceHashMap.java:736-750 | two tables on which every reference of the chain matches alike give the same search result |
| Chains.LookupAfterSetValue | src/main/java/com/talkingdata/ecommerce/utils/ConcurrentReferenceHashMap.java:565-569 | setting an entry's value changes only that entry's key, to the new value, and keeps the table well formed |
| Chains.SetValueKeepsKeys | src/main/java/com/talkingdata/ecommerce/utils/ConcurrentReferenceHashMap.java:565-569 | a value change keeps hashes and key uniqueness |
| Chains.LookupAfterRelease | src/main/java/com/talkingdata/ecommerce/utils/ConcurrentReferenceHashMap.java:359-361 | after clearing a reference its key has no value and every other key keeps its value |
| Chains.AbsentKeyUnmatched | src/main/java/com/talkingdata/ecommerce/utils/ConcurrentReferenceHashMap.java:646 | when the key's bucket has no match, no live entry of that bucket holds the key |
| Chains.Pushed | src/main/java/com/talkingdata/ecommerce/utils/ConcurrentReferenceHashMap.java:652-653 | a new reference is put at the head of its own bucket's chain and no other bucket changes |
| Chains.RelinkStep | src/main/java/com/talkingdata/ecommerce/utils/ConcurrentReferenceHashMap.java:716-721 | one step of the inner loop pushes the reference if it is live and not drained, and leaves the buckets above the scope alone |
| Chains.PushedMember | src/main/java/com/talkingdata/ecommerce/utils/ConcurrentReferenceHashMap.java:652-653 | after a push, a bucket's references are its old ones plus the new one, which is only in the key's bucket |
| Chains.FlattenDistinct | src/main/java/com/talkingdata/ecommerce/utils/ConcurrentReferenceHashMap.java:430-445 | walking chains that each hold a reference once, in buckets that share none, meets every reference once |
| Chains.PlacedDisjoint | src/main/java/com/talkingdata/ecommerce/utils/ConcurrentReferenceHashMap.java:756-758 | when every reference sits in the bucket of its hash, no two buckets share a reference |
| Chains.RelinkDistinct | src/main/java/com/talkingdata/ecommerce/utils/ConcurrentReferenceHashMap.java:716-721 | relinking a walk that meets each reference once pushes each at most once into its bucket |
| Chains.RestructuredDistinct | src/main/java/com/talkingdata/ecommerce/utils/ConcurrentReferenceHashMap.java:708-722 | the rebuilt table holds no reference twice in a chain |
| Chains.PushedDistinct | src/main/java/com/talkingdata/ecommerce/utils/ConcurrentReferenceHashMap.java:652-653 | pushing a reference no chain holds keeps every chain free of repeats |
| Chains.PushedValid | src/main/java/com/talkingdata/ecommerce/utils/ConcurrentReferenceHashMap.java:648-655 | adding an entry for an absent key keeps the table well formed |
| Chains.LookupAfterAdd | src/main/java/com/talkingdata/ecommerce/utils/ConcurrentReferenceHashMap.java:648-655 | after the add the key has the new value and every other key keeps its value |
| Segments.Execute | src/main/java/com/talkingdata/ecommerce/utils/ConcurrentReferenceHashMap.java:146-224 | a task sets or releases only an entry it found, adds only when it found none (and only put, which restructures before), does nothing on a skip-if-empty miss, and releases only in tasks that restructure after |
| Segments.PurgedCount | src/main/java/com/talkingdata/ecommerce/utils/ConcurrentReferenceHashMap.java:699-728 | the live references left after dropping the drained ones number max(count - drained, 0) |
| Segments.RestructuredTable | src/main/java/com/talkingdata/ecommerce/utils/ConcurrentReferenceHashMap.java:684-734 | a restructure leaves a well-formed table with an empty queue, fixes the count to max(count - drained, 0), and keeps every key's value |
| Segments.TableAfterSetValue | src/main/java/com/talkingdata/ecommerce/utils/ConcurrentReferenceHashMap.java:565-569 | a value overwrite keeps the segment well formed and changes only that key's value |
| Segments.TableAfterRelease | src/main/java/com/talkingdata/ecommerce/utils/ConcurrentReferenceHashMap.java:166-193 | a release enqueues the reference, keeps the segment well formed and removes only that key |
| Segments.TableAfterAdd | src/main/java/com/talkingdata/ecommerce/utils/ConcurrentReferenceHashMap.java:648-655 | an add uses a fresh reference, keeps the segment well formed and gives only the new key a value |
| Segments.SegmentSizeBounds | src/main/java/com/talkingdata/ecommerce/utils/ConcurrentReferenceHashMap.java:612 | a segment's initial size is a power of two at most 2^30 and the least one reaching its capacity |
| Segments.EmptyTable | src/main/java/com/talkingdata/ecommerce/utils/ConcurrentReferenceHashMap.java:675 | an array of empty buckets is a well-formed table in which no key has a value |
| Segments.Segment.constructor | src/main/java/com/talkingdata/ecommerce/utils/ConcurrentReferenceHashMap.java:611-614 | a new segment has a fresh array of the least power of two reaching min(capacity, 2^30), count 0, an empty queue and no keys |
| Segments.Segment.GetSize | src/main/java/com/talkingdata/ecommerce/utils/ConcurrentReferenceHashMap.java:765-767 | definition: the length of the bucket array |
| Segments.Segment.GetCount | src/main/java/com/talkingdata/ecommerce/utils/ConcurrentReferenceHashMap.java:769-771 | definition: the count field, which `Segments.Segment.DoTask` and the restructure keep equal to the live entries |
| Segments.Segment.Resolve | src/main/java/com/talkingdata/ecommerce/utils/ConcurrentReferenceHashMap.java:647 | `ref.get()` yields an entry exactly when the reference is still alive, and then its entry |
| Segments.Segment.FindInChain | src/main/java/com/talkingdata/ecommerce/utils/ConcurrentReferenceHashMap.java:736-750 | the chain walk returns what the search specification finds |
| Segments.Segment.EmptyHasNoKeys | src/main/java/com/talkingdata/ecommerce/utils/ConcurrentReferenceHashMap.java:621-622 | a segment whose count is 0 holds no key, so answering null without looking is right |
| Segments.Segment.DrainQueue | src/main/java/com/talkingdata/ecommerce/utils/ConcurrentReferenceHashMap.java:692-697 | polling until null collects the whole reference queue into the purge set and empties it |
| Segments.Segment.SetReferences | src/main/java/com/talkingdata/ecommerce/utils/ConcurrentReferenceHashMap.java:760-763 | installing an array sets the resize threshold to its share of the length |
| Segments.Segment.RelinkChain | src/main/java/com/talkingdata/ecommerce/utils/ConcurrentReferenceHashMap.java:716-721 | walking one old chain pushes its kept references into the new array and leaves the buckets above the scope untouched |
| Segments.Segment.RelinkAll | src/main/java/com/talkingdata/ecommerce/utils/ConcurrentReferenceHashMap.java:708-722 | the rehash loop, in place or into a fresh array, leaves the array equal to the restructured table |
| Segments.Segment.RestructureIfNecessary | src/main/java/com/talkingdata/ecommerce/utils/ConcurrentReferenceHashMap.java:684-734 | runs only with something drained or a resize due; doubles the array exactly when resizing; rebuilds it as the restructured table; fixes the count to max(count - drained, 0); keeps every key's value |
| Segments.Segment.Restructure | src/main/java/com/talkingdata/ecommerce/utils/ConcurrentReferenceHashMap.java:688-731 | the locked block: the same as above once it is known to run |
| Segments.Segment.NewTable | src/main/java/com/talkingdata/ecommerce/utils/ConcurrentReferenceHashMap.java:700-708 | resizes exactly when resizing is allowed, the count after purging is positive and at least the threshold, and the length is below 2^30; then a fresh empty array of twice the length, else the same array |
| Segments.Segment.SetEntryValue | src/main/java/com/talkingdata/ecommerce/utils/ConcurrentReferenceHashMap.java:565-569 | `entry.setValue` gives only that entry's key the new value |
| Segments.Segment.Release | src/main/java/com/talkingdata/ecommerce/utils/ConcurrentReferenceHashMap.java:359-361 | `release()` clears the reference, enqueues it, and removes only its key |
| Segments.Segment.Add | src/main/java/com/talkingdata/ecommerce/utils/ConcurrentReferenceHashMap.java:648-655 | prepends one new reference at the head of the key's bucket, raises the count by exactly 1, changes no other bucket, and gives only that key a value |
| Segments.Segment.GetReference | src/main/java/com/talkingdata/ecommerce/utils/ConcurrentReferenceHashMap.java:616-629 | finds a reference exactly when the key has a value, in the key's bucket and with that value; changes no key's value, and with NEVER changes nothing |
| Segments.Segment.DoTask | src/main/java/com/talkingdata/ecommerce/utils/ConcurrentReferenceHashMap.java:631-668 | returns what a task computes from the key's old value; afterwards the key holds the value its action leaves, all other keys are unchanged, and the count agrees with the entries; a skip-if-empty task that does not restructure first (remove, remove-if) changes nothing on an empty segment, while replace and replace-if still drain the reference queue |
| Segments.Segment.RunTask | src/main/java/com/talkingdata/ecommerce/utils/ConcurrentReferenceHashMap.java:640-657 | the locked block finds the key's entry and applies a task's action to it |
| Segments.Segment.Clear | src/main/java/com/talkingdata/ecommerce/utils/ConcurrentReferenceHashMap.java:670-682 | a non-empty segment gets a fresh array of its initial size and count 0; an empty one is left as it is; no key has a value afterwards |
| RefMaps.SegmentCapacity | src/main/java/com/talkingdata/ecommerce/utils/ConcurrentReferenceHashMap.java:72 | the intended per-segment capacity: the least r with r * segments at least the initial capacity |
| RefMaps.RoundedUpSegmentCapacity | src/main/java/com/talkingdata/ecommerce/utils/ConcurrentReferenceHashMap.java:72 | definition of line 72 as written (int sum, truncating long division, int cast); its properties are in `RefMaps.RoundedUpAgrees` and `RefMaps.RoundedUpOverflows` |
| RefMaps.RoundedUpAgrees | src/main/java/com/talkingdata/ecommerce/utils/ConcurrentReferenceHashMap.java:72 | the expression as written agrees with the ceiling whenever `initialCapacity + size` does not overflow |
| RefMaps.RoundedUpOverflows | src/main/java/com/talkingdata/ecommerce/utils/ConcurrentReferenceHashMap.java:72 | counterexample, one input: for initial capacity 2^31 - 1 and 16 segments the expression as written gives -134217727 where the ceiling is 134217728 |
| RefMaps.ShiftForSmallCapacity | src/main/java/com/talkingdata/ecommerce/utils/ConcurrentReferenceHashMap.java:612 | a capacity of at most 1 gives shift 0, a single bucket |
| RefMaps.SegmentCountBounds | src/main/java/com/talkingdata/ecommerce/utils/ConcurrentReferenceHashMap.java:69-70 | the segment count is a power of two at most 65536 and the least one reaching the concurrency level |
| RefMaps.ConcurrentReferenceHashMap.SegmentFor | src/main/java/com/talkingdata/ecommerce/utils/ConcurrentReferenceHashMap.java:293-295 | a key's segment index is below the segment count |
| RefMaps.ConcurrentReferenceHashMap.constructor | src/main/java/com/talkingdata/ecommerce/utils/ConcurrentReferenceHashMap.java:63-79 | the least power-of-two count of segments reaching min(concurrency, 65536), each empty and built for the wrapping share of line 72 as written, which is the ceiling of capacity over the count whenever `initialCapacity + size` does not overflow, and which gives one bucket when at most 1; the map holds no key |
| RefMaps.MakeSegments | src/main/java/com/talkingdata/ecommerce/utils/ConcurrentReferenceHashMap.java:73-77 | the constructor's loop: exactly `size` fresh segments, all distinct with distinct arrays, each valid, holding no key, hashing keys by the map's hash, and with an initial size that is the least power of two reaching min(capacity, 2^30) |
| RefMaps.ConcurrentReferenceHashMap.EmptyValid | src/main/java/com/talkingdata/ecommerce/utils/ConcurrentReferenceHashMap.java:73-77 | fresh empty segments, one per power-of-two slot, make a well-formed map in which no key has a value |
| RefMaps.SmallCapacitySegments | src/main/java/com/talkingdata/ecommerce/utils/ConcurrentReferenceHashMap.java:612 | segments built for a capacity of at most 1 each have a single bucket |
| RefMaps.NewMap | src/main/java/com/talkingdata/ecommerce/utils/ConcurrentReferenceHashMap.java:63-67 | the argument checks: a negative capacity, a load factor of 0 or a non-positive concurrency level fail, in that order; otherwise an empty map |
| RefMaps.ConcurrentReferenceHashMap.Apply | src/main/java/com/talkingdata/ecommerce/utils/ConcurrentReferenceHashMap.java:288-291 | doTask on the key's segment: a task's result and effect on the key; no other key and no other segment's count changes; the key's segment counts its live entries, which the task changed by its delta |
| RefMaps.ConcurrentReferenceHashMap.RunInSegment | src/main/java/com/talkingdata/ecommerce/utils/ConcurrentReferenceHashMap.java:288-291 | the segment the key's hash selects runs the task, with the same result, effect on the key, other keys and count; nothing but that segment and its array changes |
| RefMaps.ConcurrentReferenceHashMap.Put | src/main/java/com/talkingdata/ecommerce/utils/ConcurrentReferenceHashMap.java:137-163 | returns the previous value (null when absent) and afterwards the key maps to the new value; no other key changes |
| RefMaps.ConcurrentReferenceHashMap.PutIfAbsent | src/main/java/com/talkingdata/ecommerce/utils/ConcurrentReferenceHashMap.java:142-163 | returns the existing value and keeps it when present; inserts and returns null when absent |
| RefMaps.ConcurrentReferenceHashMap.Remove | src/main/java/com/talkingdata/ecommerce/utils/ConcurrentReferenceHashMap.java:166-178 | returns the key's value (null when absent) and afterwards the key is absent; no other key changes |
| RefMaps.ConcurrentReferenceHashMap.RemoveIf | src/main/java/com/talkingdata/ecommerce/utils/ConcurrentReferenceHashMap.java:181-193 | removes and answers true exactly when the key holds a value equal to the given one; otherwise nothing changes |
| RefMaps.ConcurrentReferenceHashMap.ReplaceIf | src/main/java/com/talkingdata/ecommerce/utils/ConcurrentReferenceHashMap.java:196-209 | sets the new value and answers true exactly when the key holds a value equal to the old one; otherwise nothing changes |
| RefMaps.ConcurrentReferenceHashMap.Replace | src/main/java/com/talkingdata/ecommerce/utils/ConcurrentReferenceHashMap.java:211-224 | overwrites and returns the old value when present; returns null and does not insert when absent |
| RefMaps.ConcurrentReferenceHashMap.GetEntryIfAvailable | src/main/java/com/talkingdata/ecommerce/utils/ConcurrentReferenceHashMap.java:126-134 | an entry comes back exactly when the key has a value, with that key and value; no key's value changes |
| RefMaps.ConcurrentReferenceHashMap.Get | src/main/java/com/talkingdata/ecommerce/utils/ConcurrentReferenceHashMap.java:109-112 | returns the key's value, null when absent, and changes no key's value |
| RefMaps.ConcurrentReferenceHashMap.GetOrDefault | src/main/java/com/talkingdata/ecommerce/utils/ConcurrentReferenceHashMap.java:115-118 | returns the key's value, or the default when absent |
| RefMaps.ConcurrentReferenceHashMap.ContainsKey | src/main/java/com/talkingdata/ecommerce/utils/ConcurrentReferenceHashMap.java:121-124 | true exactly when the key has a value |
| RefMaps.ConcurrentReferenceHashMap.Reclaim | src/main/java/com/talkingdata/ecommerce/utils/ConcurrentReferenceHashMap.java:365-378 | the collector clearing a key's reference: the key is gone, its reference is queued, no count changes until the next restructure, and other keys are untouched |
| RefMaps.ConcurrentReferenceHashMap.ZeroCountsNoKeys | src/main/java/com/talkingdata/ecommerce/utils/ConcurrentReferenceHashMap.java:264-276 | when every segment's count is 0 the map holds no key |
| RefMaps.ConcurrentReferenceHashMap.TotalCountZero | src/main/java/com/talkingdata/ecommerce/utils/ConcurrentReferenceHashMap.java:250-261 | the sum of the counts is never negative and is 0 exactly when every count is 0 |
| RefMaps.ConcurrentReferenceHashMap.Size | src/main/java/com/talkingdata/ecommerce/utils/ConcurrentReferenceHashMap.java:250-261 | the sum of the segment counts; a size of 0 means no key has a value |
| RefMaps.ConcurrentReferenceHashMap.IsEmpty | src/main/java/com/talkingdata/ecommerce/utils/ConcurrentReferenceHashMap.java:264-276 | true exactly when every segment's count is 0, that is when the size is 0; then no key has a value |
| RefMaps.ConcurrentReferenceHashMap.Clear | src/main/java/com/talkingdata/ecommerce/utils/ConcurrentReferenceHashMap.java:227-236 | every non-empty segment gets a fresh array of its initial size; every count is 0 and no key has a value |
| RefMaps.ConcurrentReferenceHashMap.ClearSegment | src/main/java/com/talkingdata/ecommerce/utils/ConcurrentReferenceHashMap.java:231-234 | one step of the loop clears its segment and leaves every other segment's array, count and keys alone |
| RefMaps.ConcurrentReferenceHashMap.PurgeUnreferencedEntries | src/main/java/com/talkingdata/ecommerce/utils/ConcurrentReferenceHashMap.java:238-248 | every segment's queue is drained and its count equals its live entries; no key's value changes |
| EntryIterators.EntryIterator.constructor | src/main/java/com/talkingdata/ecommerce/utils/ConcurrentReferenceHashMap.java:396-399 | a new iterator will yield exactly the map's live entries, in segment, bucket and chain order |
| EntryIterators.EntryIterator.SegmentAfter | src/main/java/com/talkingdata/ecommerce/utils/ConcurrentReferenceHashMap.java:450-453 | the next segment's array and the advanced index, or none past the last segment |
| EntryIterators.EntryIterator.MoveToNextSegment | src/main/java/com/talkingdata/ecommerce/utils/ConcurrentReferenceHashMap.java:447-455 | clears the current reference and moves to the next segment's array, or to none past the last |
| EntryIterators.EntryIterator.MoveToNextReference | src/main/java/com/talkingdata/ecommerce/utils/ConcurrentReferenceHashMap.java:430-445 | the cursor advances past exactly one reference, the first one left in walk order, or reaches the end |
| EntryIterators.EntryIterator.Advance | src/main/java/com/talkingdata/ecommerce/utils/ConcurrentReferenceHashMap.java:430-445 | the same step on the cursor's values: one reference taken off the front of what is left to visit |
| EntryIterators.EntryIterator.Seek | src/main/java/com/talkingdata/ecommerce/utils/ConcurrentReferenceHashMap.java:435-443 | the inner loop finds the next non-empty chain head or runs out of segments |
| EntryIterators.EntryIterator.GetNextIfNecessary | src/main/java/com/talkingdata/ecommerce/utils/ConcurrentReferenceHashMap.java:418-428 | skips cleared references without changing what is left to yield; no next entry means nothing is left |
| EntryIterators.EntryIterator.Fetch | src/main/java/com/talkingdata/ecommerce/utils/ConcurrentReferenceHashMap.java:419-426 | the loop on the cursor's values keeps the pending entry followed by what is left |
| EntryIterators.EntryIterator.HasNext | src/main/java/com/talkingdata/ecommerce/utils/ConcurrentReferenceHashMap.java:401-404 | true exactly when a live entry is left to yield |
| EntryIterators.EntryIterator.Next | src/main/java/com/talkingdata/ecommerce/utils/ConcurrentReferenceHashMap.java:407-416 | yields the first entry left and remembers it as the last one; throws NoSuchElementException when none is left |
| EntryIterators.EntryIterator.Remove | src/main/java/com/talkingdata/ecommerce/utils/ConcurrentReferenceHashMap.java:458-461 | removes the last returned key from the map or throws IllegalStateException when there is none; `last` is kept as written |
| EntryIterators.ContentsAreLookup | src/main/java/com/talkingdata/ecommerce/utils/ConcurrentReferenceHashMap.java:386-461 | on a well-formed map, an entry is among the iterator's contents exactly when its key maps to its value, and no key occurs twice |
| EntryIterators.ContentsMember | src/main/java/com/talkingdata/ecommerce/utils/ConcurrentReferenceHashMap.java:396-445 | one entry at a time: yielded by the walk exactly when the map holds that key and value |
| EntryIterators.ContentsSound | src/main/java/com/talkingdata/ecommerce/utils/ConcurrentReferenceHashMap.java:407-416 | every entry the walk resolves is a mapping of the map |
| EntryIterators.ContentsComplete | src/main/java/com/talkingdata/ecommerce/utils/ConcurrentReferenceHashMap.java:430-445 | every mapping of the map is found by some step of the walk |
| EntryIterators.ContentsKeysDistinct | src/main/java/com/talkingdata/ecommerce/utils/ConcurrentReferenceHashMap.java:430-445 | the walk never yields two entries with one key |
| EntryIterators.SameKeySameVisit | src/main/java/com/talkingdata/ecommerce/utils/ConcurrentReferenceHashMap.java:430-445 | two steps of the walk that resolve entries of one key are the same step |
| EntryIterators.VisitedEntry | src/main/java/com/talkingdata/ecommerce/utils/ConcurrentReferenceHashMap.java:430-445 | a reference the walk meets that resolves to an entry sits in the key's segment and is what findInChain returns in the key's bucket |
| EntryIterators.VisitsFromDistinct | src/main/java/com/talkingdata/ecommerce/utils/ConcurrentReferenceHashMap.java:430-453 | when no segment's chains repeat a reference, the walk never meets a step twice |
| EntryIterators.LiveInKeysDistinct | src/main/java/com/talkingdata/ecommerce/utils/ConcurrentReferenceHashMap.java:418-428 | when each key resolves at most one step, the yielded entries have distinct keys |
| EntryIterators.RemoveTwice | src/main/java/com/talkingdata/ecommerce/utils/ConcurrentReferenceHashMap.java:458-461 | as written, a second remove after one next succeeds again instead of failing |
| EntryIterators.EntryIterator.RemoveOnce | src/main/java/com/talkingdata/ecommerce/utils/ConcurrentReferenceHashMap.java:458-461 | the intended remove: the same, and then forgets the last entry |
| EntryIterators.RemoveOnceTwice | src/main/java/com/talkingdata/ecommerce/utils/ConcurrentReferenceHashMap.java:458-461 | with the intended remove a second call fails with IllegalStateException |
| EntryIterators.EntryContainsAsWritten | src/main/java/com/talkingdata/ecommerce/utils/ConcurrentReferenceHashMap.java:478-481 | comparing the stored value with itself is true exactly when the key has a value, whatever value was asked about |
| EntryIterators.EntryContains | src/main/java/com/talkingdata/ecommerce/utils/ConcurrentReferenceHashMap.java:478-481 | the intended test: true exactly when the key holds the given value |
| EntryIterators.EntryContainsIgnoresValue | src/main/java/com/talkingdata/ecommerce/utils/ConcurrentReferenceHashMap.java:480 | counterexample, one input: an entry with a wrong value is reported as contained, where the intended test rejects it |
| EntryIterators.FoundValue | src/main/java/com/talkingdata/ecommerce/utils/ConcurrentReferenceHashMap.java:477-478 | the value behind getReference with NEVER is the key's value, and nothing changes |
| EntryIterators.EntrySetContains | src/main/java/com/talkingdata/ecommerce/utils/ConcurrentReferenceHashMap.java:474-485 | as written: true exactly for a non-null entry whose key is present |
| EntryIterators.EntrySetContainsIntended | src/main/java/com/talkingdata/ecommerce/utils/ConcurrentReferenceHashMap.java:474-485 | intended: true exactly for a non-null entry whose key holds its value |
| EntryIterators.EntrySetRemove | src/main/java/com/talkingdata/ecommerce/utils/ConcurrentReferenceHashMap.java:488-495 | removes the entry's key exactly when it holds the entry's value; null changes nothing; other keys are untouched |
| EntryIterators.StartCovers | src/main/java/com/talkingdata/ecommerce/utils/ConcurrentReferenceHashMap.java:396-399 | the starting position has the whole walk of live entries still ahead |
| EntryIterators.CursorOrder | src/main/java/com/talkingdata/ecommerce/utils/ConcurrentReferenceHashMap.java:430-455 | what is left from a position is the rest of the current chain, then the current segment's later buckets, then the later segments |
| EntryIterators.LiveAtCursor | src/main/java/com/talkingdata/ecommerce/utils/ConcurrentReferenceHashMap.java:418-428 | the entries left to yield are the live entries of the references left to visit |
| Text.Trim | src/main/java/com/talkingdata/ecommerce/support/querydsl/base/BasePage.java:40 | `trim()` is no longer than its input, and a non-empty result starts and ends above U+0020 |
| Text.TrimNonEmpty | src/main/java/com/talkingdata/ecommerce/support/querydsl/base/BasePage.java:40 | `s.trim().length() > 0` exactly when some character of s is above U+0020 |
| Text.IndexOf | src/main/java/com/talkingdata/ecommerce/utils/BeanUtils.java:146 | `indexOf` is -1 exactly when the character is absent, else its first position |
| Text.ToUpper | src/main/java/com/talkingdata/ecommerce/utils/BeanUtils.java:136 | a lower-case ASCII letter becomes its capital; any other character is unchanged |
| Text.DecimalString | src/main/java/com/talkingdata/ecommerce/utils/Configs.java:63 | `String.valueOf(int)` is non-empty and starts with '-' exactly for negative numbers |
| Text.DigitsRoundTrip | src/main/java/com/talkingdata/ecommerce/utils/Configs.java:63 | reading back the decimal digits of a number gives the number |
| Text.ParseInt | src/main/java/com/talkingdata/ecommerce/utils/Configs.java:63 | `Integer.valueOf` succeeds exactly on an optional sign followed by at least one digit whose value fits an int, and then yields that value |
| Text.ParseDecimal | src/main/java/com/talkingdata/ecommerce/utils/Configs.java:63 | parsing the decimal form of any int gives that int back |
| Configs.KeyFor | src/main/java/com/talkingdata/ecommerce/utils/Configs.java:69-76 | a blank path keeps the key; otherwise the key is appended to the path directly when it starts with "[", else after a "." |
| Configs.BuildFlattenedMap | src/main/java/com/talkingdata/ecommerce/utils/Configs.java:67-99 | the table afterwards is the old table with the traversal's puts applied in order |
| Configs.FlattenEntry | src/main/java/com/talkingdata/ecommerce/utils/Configs.java:69-97 | one entry's puts: a string under its key, a map recursed into with the key as path, a null as "", other scalars as they are |
| Configs.FlattenList | src/main/java/com/talkingdata/ecommerce/utils/Configs.java:85-94 | a collection is stored whole under its key, then element i is flattened under `key[i]`, counting from 0 |
| Configs.ApplyConcat | src/main/java/com/talkingdata/ecommerce/utils/Configs.java:68-98 | putting two runs of entries one after the other is putting their concatenation |
| Configs.ApplyUntouched | src/main/java/com/talkingdata/ecommerce/utils/Configs.java:68-98 | a key the traversal never puts keeps its old presence and value |
| Configs.ApplyLastWins | src/main/java/com/talkingdata/ecommerce/utils/Configs.java:68-98 | a key holds the value of its last put |
| Configs.ApplyDomain | src/main/java/com/talkingdata/ecommerce/utils/Configs.java:68-98 | every key of the result was either there before or was put |
| Configs.EntryPutsFlat | src/main/java/com/talkingdata/ecommerce/utils/Configs.java:78-97 | no map value and no null is ever stored: maps are recursed into and null becomes "" |
| Configs.PutsFlat | src/main/java/com/talkingdata/ecommerce/utils/Configs.java:67-99 | the same for a whole map |
| Configs.ItemPutsFlat | src/main/java/com/talkingdata/ecommerce/utils/Configs.java:91-94 | the same for the elements of a collection |
| Configs.KeyForUnder | src/main/java/com/talkingdata/ecommerce/utils/Configs.java:70-76 | below a non-blank path a computed key extends the path with "." or "[", and is itself not blank |
| Configs.UnderTransitive | src/main/java/com/talkingdata/ecommerce/utils/Configs.java:84 | a key below a nested path is below the outer path too |
| Configs.EntryPutsUnder | src/main/java/com/talkingdata/ecommerce/utils/Configs.java:67-99 | below a non-blank path every key an entry puts starts with the path followed by "." or "[" |
| Configs.PutsUnder | src/main/java/com/talkingdata/ecommerce/utils/Configs.java:67-99 | the same for a whole nested map |
| Configs.ItemPutsUnder | src/main/java/com/talkingdata/ecommerce/utils/Configs.java:91-94 | every key a collection's elements put lies below the collection's key |
| Configs.ListElementKey | src/main/java/com/talkingdata/ecommerce/utils/Configs.java:92-93 | element i of a collection under key k is stored at exactly `k[i]` |
| Configs.StringsFlattenToThemselves | src/main/java/com/talkingdata/ecommerce/utils/Configs.java:78-79 | a top-level map of distinct keys with string values flattens to exactly itself |
| Configs.StringPutsAreEntries | src/main/java/com/talkingdata/ecommerce/utils/Configs.java:78-79 | with string values and no path the puts are the entries themselves, in order |
| Configs.NestedExample | src/main/java/com/talkingdata/ecommerce/utils/Configs.java:67-99 | example, one input: `{a: {b: x, c: [1]}}` gives the puts a.b = x, a.c = [1] and a.c[0] = 1, in that order |
| Configs.GetStringOr | src/main/java/com/talkingdata/ecommerce/utils/Configs.java:38-44 | the default exactly when the key is absent, else `String.valueOf` of the stored value |
| Configs.GetString | src/main/java/com/talkingdata/ecommerce/utils/Configs.java:34-36 | null exactly when the key is absent, else the stored value's text |
| Configs.ValueOf | src/main/java/com/talkingdata/ecommerce/utils/Configs.java:43 | definition of `String.valueOf` on the loaded values (collections as `[a, b]`, maps as `{k=v}`); its reading back as a number is in `Configs.GetIntOfDecimal` and `Configs.GetIntReadsGetString` |
| Configs.GetIntOr | src/main/java/com/talkingdata/ecommerce/utils/Configs.java:54-65 | the default when absent; a stored Integer as it is; anything else is its text parsed, and fails with a NumberFormatException on that text exactly when the text does not parse |
| Configs.GetInt | src/main/java/com/talkingdata/ecommerce/utils/Configs.java:50-52 | 0 when absent, a stored Integer as it is |
| Configs.GetIntReadsGetString | src/main/java/com/talkingdata/ecommerce/utils/Configs.java:59-64 | for a present key, getInt succeeds and fails exactly as parsing getString's answer does, with the same value |
| Configs.GetIntOfDecimal | src/main/java/com/talkingdata/ecommerce/utils/Configs.java:63 | a stored string holding an int's decimal form reads back as that int |
| Configs.GetIntOfBool | src/main/java/com/talkingdata/ecommerce/utils/Configs.java:63 | a stored boolean makes getInt throw NumberFormatException |
| BeanUtils.ParSetName | src/main/java/com/talkingdata/ecommerce/utils/BeanUtils.java:128-138 | null and "" give null; only "_" throws StringIndexOutOfBoundsException; any other name gives a string starting with "set" |
| BeanUtils.SetterOfPlainName | src/main/java/com/talkingdata/ecommerce/utils/BeanUtils.java:132-137 | a name not starting with '_' gives "set" + its first character in upper case + the rest |
| BeanUtils.SetterOfUnderscoredName | src/main/java/com/talkingdata/ecommerce/utils/BeanUtils.java:133-137 | a leading '_' is dropped and the next character is capitalised |
| BeanUtils.SetterLength | src/main/java/com/talkingdata/ecommerce/utils/BeanUtils.java:135-137 | the setter is 3 characters longer than the name, less 1 for a leading '_' |
| BeanUtils.SetterRoundTrip | src/main/java/com/talkingdata/ecommerce/utils/BeanUtils.java:135-137 | dropping "set" and lower-casing the next character gives back the field name without its '_', when that does not start with a capital |
| BeanUtils.CheckSetMet | src/main/java/com/talkingdata/ecommerce/utils/BeanUtils.java:158-165 | true exactly when some method has the given name; a null name throws NullPointerException exactly when there is a method to compare with |
| BeanUtils.DatePatternFor | src/main/java/com/talkingdata/ecommerce/utils/BeanUtils.java:141-150 | null and "" are not parsed; any other string gets one of the two patterns |
| BeanUtils.DatePatternChoice | src/main/java/com/talkingdata/ecommerce/utils/BeanUtils.java:146-150 | "yyyy-MM-dd HH:mm:ss" exactly for strings holding a ':' that do not start with one; "yyyy-MM-dd" otherwise |
| BeanUtils.ParseDate | src/main/java/com/talkingdata/ecommerce/utils/BeanUtils.java:140-156 | null for null and ""; otherwise what the date parser makes of the string with the chosen pattern; which pattern is chosen is stated independently by `BeanUtils.DatePatternChoice` |
| Paging.Pager.constructor | src/main/java/com/talkingdata/ecommerce/support/querydsl/base/BasePage.java:31 | a new pager has no page id, page size or order field |
| Paging.Pager.SetPageId | src/main/java/com/talkingdata/ecommerce/support/querydsl/base/BasePage.java:34 | sets the page id and nothing else |
| Paging.Pager.SetPageSize | src/main/java/com/talkingdata/ecommerce/support/querydsl/base/BasePage.java:35-37 | sets the page size and nothing else |
| Paging.Pager.SetOrderField | src/main/java/com/talkingdata/ecommerce/support/querydsl/base/BasePage.java:46 | sets the order field and nothing else |
| Paging.HasTextMeansVisibleChar | src/main/java/com/talkingdata/ecommerce/support/querydsl/base/BasePage.java:40-43 | `s != null && s.trim().length() > 0` exactly when s has a character above U+0020 |
| Paging.EffectivePageSize | src/main/java/com/talkingdata/ecommerce/support/querydsl/base/BasePage.java:62-67 | rows when set, else the page size; `Paging.PageSizeAgrees` proves getPageSize and getRows agree on it |
| Paging.OrderFieldOf | src/main/java/com/talkingdata/ecommerce/support/querydsl/base/BasePage.java:39-45 | "" without a column with text; the column alone without a direction with text; else column, a space and the direction |
| Paging.OrderFieldEmpty | src/main/java/com/talkingdata/ecommerce/support/querydsl/base/BasePage.java:39-45 | the order field is empty exactly when the column has no text |
| Paging.OrderFieldStartsWithColumn | src/main/java/com/talkingdata/ecommerce/support/querydsl/base/BasePage.java:41 | the column is kept untrimmed at the front of the order field |
| Paging.OrderFieldLength | src/main/java/com/talkingdata/ecommerce/support/querydsl/base/BasePage.java:43-45 | a direction adds one space and itself, and nothing is added without one |
| Paging.BasePage.constructor | src/main/java/com/talkingdata/ecommerce/support/querydsl/base/BasePage.java:8-31 | page 1, page size 10, everything else unset, and a fresh pager |
| Paging.BasePage.GetPage | src/main/java/com/talkingdata/ecommerce/support/querydsl/base/BasePage.java:54-56 | the page field |
| Paging.BasePage.GetPageSize | src/main/java/com/talkingdata/ecommerce/support/querydsl/base/BasePage.java:62-67 | the page size in effect: rows when set, else pageSize; its partner is `Paging.PageSizeAgrees` |
| Paging.BasePage.GetRows | src/main/java/com/talkingdata/ecommerce/support/querydsl/base/BasePage.java:105-110 | the same page size in effect, reached by the opposite test |
| Paging.PageSizeAgrees | src/main/java/com/talkingdata/ecommerce/support/querydsl/base/BasePage.java:105-110 | getPageSize and getRows always agree |
| Paging.BasePage.SetPage | src/main/java/com/talkingdata/ecommerce/support/querydsl/base/BasePage.java:58-60 | sets the page and nothing else |
| Paging.BasePage.SetPageSize | src/main/java/com/talkingdata/ecommerce/support/querydsl/base/BasePage.java:69-71 | sets pageSize and nothing else; while rows is set the page size in effect does not change |
| Paging.BasePage.SetRows | src/main/java/com/talkingdata/ecommerce/support/querydsl/base/BasePage.java:111-113 | sets rows and nothing else |
| Paging.BasePage.SetOrderBy | src/main/java/com/talkingdata/ecommerce/support/querydsl/base/BasePage.java:77-79 | sets orderBy and nothing else |
| Paging.BasePage.SetOrder | src/main/java/com/talkingdata/ecommerce/support/querydsl/base/BasePage.java:85-87 | sets order and nothing else |
| Paging.BasePage.SetQ | src/main/java/com/talkingdata/ecommerce/support/querydsl/base/BasePage.java:93-95 | sets q and nothing else |
| Paging.BasePage.SetSort | src/main/java/com/talkingdata/ecommerce/support/querydsl/base/BasePage.java:101-103 | sets sort and nothing else |
| Paging.BasePage.SetPager | src/main/java/com/talkingdata/ecommerce/support/querydsl/base/BasePage.java:50-52 | replaces the pager and keeps every parameter |
| Paging.BasePage.GetPager | src/main/java/com/talkingdata/ecommerce/support/querydsl/base/BasePage.java:33-48 | fills the page's own pager in place and returns it: the page as page id, the page size in effect, and the order field derived from orderBy and order |
| Platforms.StandardDrivers | src/main/java/com/talkingdata/ecommerce/support/querydsl/common/PlatformUtils.java:23-27 | the table knows exactly the five driver names |
| Platforms.PlatformUtils.constructor | src/main/java/com/talkingdata/ecommerce/support/querydsl/common/PlatformUtils.java:22-28 | the five puts leave exactly the standard table |
| Platforms.PlatformUtils.DetermineDatabaseType | src/main/java/com/talkingdata/ecommerce/support/querydsl/common/PlatformUtils.java:52-57 | a platform exactly for a driver name in the table, and then the table's platform; null otherwise; the table is only read; the platform of each driver is stated independently by `Platforms.PlatformOfDriver` |
| Platforms.KnownDrivers | src/main/java/com/talkingdata/ecommerce/support/querydsl/common/PlatformUtils.java:23-27 | examples, five inputs: PostgreSQL's driver gives "PostgreSql", the three MySQL drivers give "MySQL", and Derby's gives "Derby" |
| Platforms.PlatformOfDriver | src/main/java/com/talkingdata/ecommerce/support/querydsl/common/PlatformUtils.java:52-57 | "MySQL" comes exactly from the three MySQL drivers; a name outside the table or null gives null; every answer is one of the three platforms |

## Left out

- Concurrency: the segment locks, the volatile fields and the lock-free reads. Every operation runs to completion on its own, and lock and unlock do nothing.
- Collector timing: when a soft or weak reference is cleared. The explicit `RefMaps.ConcurrentReferenceHashMap.Reclaim` action stands for it. The two reference types behave the same here, so `ReferenceType` is only recorded.
- The float load factor: it is a ratio `loadNum / loadDen` of naturals, and the threshold is `length * loadNum / loadDen` rounded down. A float product can round differently.
- `hashCode(double)`, `hashCode(float)` and the double and float array hashes: these go through float bit conversion.
- The runtime-class dispatch of `arrayEquals`: values and arrays compare by content, as Dafny values do.
- The `AbstractMap` and `AbstractSet` plumbing: `entrySet()` caching, the entry set's `size` and `clear` (which only delegate to the map's), and the inherited `equals`, `hashCode`, `keySet` and `values`.
- `Entry.toString`, `Entry.equals` and `Entry.hashCode`: the entry set is modelled on key and value directly.
- EntryIterators.EntryIterator.Next: the entry is returned as a key/value copy, so writing through it with `Entry.setValue` (the returned object is the map's own entry) does not change the map in the model. The map-side `setValue` is `Segments.Segment.SetEntryValue`.
- Segments.Segment.RelinkAll: the restructure creates a new reference object for each kept entry; the model keeps the old reference's id. Nothing observes the difference while the map is not changed during iteration, the only iteration specified.
- EntryIterators.EntryIterator: only iteration over a map that is not changed while iterating is specified. The iterator is specified against a snapshot taken when it was created. After a `remove` through it, nothing further is promised about `next`.
- EntryIterators.EntryIterator.constructor: the iterator is modelled over a map whose segments and arrays are distinct objects, which every map built by the constructor satisfies.
- The iterator's loops run on local copies of its cursor fields, which are then stored back, instead of updating the fields step by step.
- RefMaps.ConcurrentReferenceHashMap.Size: the sum is unbounded; Java's `int` sum could wrap past 2^31 - 1 entries.
- Segments.Segment.Add: the count is unbounded; Java's `count++` could wrap.
- Configs.FlattenList: the element counter is unbounded.
- Hashing.CalculateShift: requires a maximum of at most 2^30, which both callers pass (65536 and 2^30), so the doubling cannot overflow.
- Hashing.NullSafeHashCode: the double and float array cases are left out (see the float helpers above); the hash of a non-empty object array is stated by `Hashing.ObjectArrayHash` rather than by the function's own contract, because that fold runs through the function itself.
- Hashing.GetHash has no contract of its own. It is the Java expression on `bv32`, and `Hashing.NullKeyHash` pins one value.
- Java null is `None` throughout. A null map key is not modelled separately; in the map it is just another key whose hash is that of hash code 0.
- `Configs.init`: loading `application.yml` from the class path and the YAML library. The loaded document is a `Configs.Yaml` value.
- The `Properties` table's refusal of null keys and values. Keys are always strings, and the flattening never stores a null.
- YAML keys that are not strings, and the insertion order of the YAML loader's maps: a map's entries are the order they are visited in.
- Scalars other than strings, Integers and booleans (Long, Double, Date, ...) are one `Scalar` case carrying their `String.valueOf` text.
- Unicode case mapping and non-ASCII digits: `toUpperCase` maps the ASCII letters only, and `Integer.valueOf` reads ASCII digits only.
- The date parsing in `parseDate`, a call into Joda-Time: a function parameter that returns null on failure.
- `BeanUtils.setFieldValue`, `copyProperties` and `copyListProperties`: reflection.
- `PlatformUtils.determineDatabaseType(DataSource)`: JDBC connection I/O and logging.
- The `Pager` class is not part of this model. It is taken to be a record of page id, page size and order field that starts out null.
- Integer fields of `BasePage` and `Pager` are `int32` values; no arithmetic is done on them.

## Findings

| source | as written | input that shows it | evidently intended | confidence | as-written member | corrected member |
|---|---|---|---|---|---|---|
| src/main/java/com/talkingdata/ecommerce/utils/ConcurrentReferenceHashMap.java:72 | `(int)(((long)(initialCapacity + size) - 1L) / (long)size)` adds in `int` before widening | initialCapacity 2147483647, concurrencyLevel 16: the sum wraps and gives -134217727 | the ceiling of initialCapacity / size, 134217728 | not executed | RefMaps.RoundedUpOverflows | RefMaps.SegmentCapacity |
| src/main/java/com/talkingdata/ecommerce/utils/ConcurrentReferenceHashMap.java:480 | `nullSafeEquals(otherEntry.getValue(), otherEntry.getValue())` compares the stored value with itself | map {1 ↦ 1}, contains(entry 1 ↦ 2) answers true | compare the stored value with the asked entry's value | not executed | EntryIterators.EntrySetContains | EntryIterators.EntrySetContainsIntended |
| src/main/java/com/talkingdata/ecommerce/utils/ConcurrentReferenceHashMap.java:458-461 | `remove()` never clears `last` | next(), remove(), remove(): the second remove succeeds | the second remove throws IllegalStateException, as the Iterator contract says | not executed | EntryIterators.RemoveTwice | EntryIterators.RemoveOnceTwice |

The map's constructor follows line 72 as written. Its postcondition ties the
as-written share to `RefMaps.SegmentCapacity` whenever `initialCapacity + size`
does not overflow, through `RefMaps.RoundedUpAgrees`.
