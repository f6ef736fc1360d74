/** A Segment of ConcurrentReferenceHashMap: one lock-protected table of
    bucket chains of soft references, with the reference queue on which the
    collector (or `release()`) puts references whose entry is gone.
    The lock is not modelled: every method below runs alone. */
module Segments {
  import opened Wrappers
  import opened JavaInt
  import opened Hashing
  import opened Chains

  /** Whether getReference restructures first. */
  datatype Restructure = WhenNecessary | Never

  datatype TaskOption = RestructureBefore | RestructureAfter | SkipIfEmpty | Resize

  /** What each update operation of the map hands to doTask. */
  datatype Task<V> =
    | PutTask(value: V, overwriteExisting: bool)
    | RemoveTask
    | RemoveIfTask(expected: V)
    | ReplaceIfTask(expected: V, newValue: V)
    | ReplaceTask(value: V)

  /** The options each task is created with. */
  function Options<V>(task: Task<V>): set<TaskOption>
  {
    match task
    case PutTask(_, _) => {RestructureBefore, Resize}
    case RemoveTask => {RestructureAfter, SkipIfEmpty}
    case RemoveIfTask(_) => {RestructureAfter, SkipIfEmpty}
    case ReplaceIfTask(_, _) => {RestructureBefore, SkipIfEmpty}
    case ReplaceTask(_) => {RestructureBefore, SkipIfEmpty}
  }

  /** What a task returns: the previous value (`None` for Java's null) or a flag. */
  datatype TaskResult<V> = Previous(previous: Option<V>) | Done(done: bool)

  /** What a task does to the entry it was handed. */
  datatype Action<V> = Keep | SetValue(value: V) | ReleaseRef | AddEntry(value: V)

  /** Task.execute, given the value of the entry found for the key (`None`
      when no reference resolves to it). Values are compared with equality,
      which is nullSafeEquals on them. */
  function Execute<V(==)>(task: Task<V>, found: Option<V>): (r: (TaskResult<V>, Action<V>))
    ensures (r.1.SetValue? || r.1.ReleaseRef?) ==> found.Some?
    ensures r.1.AddEntry? ==> found.None? && RestructureBefore in Options(task)
    ensures SkipIfEmpty in Options(task) && found.None? ==> r.1 == Keep
    ensures r.1.ReleaseRef? ==> RestructureBefore !in Options(task)
  {
    match task
    case PutTask(v, overwrite) =>
      if found.Some? then (Previous(found), if overwrite then SetValue(v) else Keep)
      else (Previous(None), AddEntry(v))
    case RemoveTask =>
      if found.Some? then (Previous(found), ReleaseRef) else (Previous(None), Keep)
    case RemoveIfTask(e) =>
      if found.Some? && found.value == e then (Done(true), ReleaseRef) else (Done(false), Keep)
    case ReplaceIfTask(e, n) =>
      if found.Some? && found.value == e then (Done(true), SetValue(n)) else (Done(false), Keep)
    case ReplaceTask(v) =>
      if found.Some? then (Previous(found), SetValue(v)) else (Previous(None), Keep)
  }

  /** The value of the key after the action was applied to the value found. */
  function ValueAfter<V>(action: Action<V>, found: Option<V>): Option<V>
  {
    match action
    case Keep => found
    case SetValue(v) => Some(v)
    case ReleaseRef => None
    case AddEntry(v) => Some(v)
  }

  /** How many entries an action adds to the segment. */
  function Delta<V>(action: Action<V>): int
  {
    match action
    case AddEntry(_) => 1
    case ReleaseRef => -1
    case _ => 0
  }

  function Max(a: int, b: int): int { if a >= b then a else b }

  function ToSet(s: seq<nat>): set<nat>
  {
    set x | x in s
  }

  /** Whether restructureIfNecessary does anything: something can be polled
      from the queue, or a resize is allowed and the count reached the threshold. */
  predicate Runs(queue: seq<nat>, count: int, threshold: int, allowResize: bool)
  {
    queue != [] || (allowResize && count > 0 && count >= threshold)
  }

  /** Whether it also doubles the bucket array: the count left after purging
      still reaches the threshold and the array is below the maximum size. */
  predicate Grows(queue: seq<nat>, count: int, threshold: int, length: nat, allowResize: bool)
  {
    var after := count - |ToSet(queue)|;
    Runs(queue, count, threshold, allowResize) && allowResize && after > 0 && after >= threshold
      && length < MaximumSegmentSize
  }

  /** The count after purging is the number of live entries: the queue holds
      exactly the counted references that no longer resolve, except after a
      clear, when the count is 0 and the queue may still hold stale ones. */
  lemma PurgedCount(members: set<nat>, live: set<nat>, queued: set<nat>)
    requires live <= members
    requires forall id :: id in members && id !in live ==> id in queued
    requires forall id :: id in queued ==> id !in live
    requires members == {} || queued <= members
    ensures |live| == Max(|members| - |queued|, 0)
  {
    if members != {} {
      assert queued == members - live;
      assert members == live + queued;
    }
  }

  /** The invariant of a segment's table: chains, entries and reference queue. */
  ghost predicate TableValid<K, V>(chains: seq<seq<Ref>>, entries: map<nat, Entry<K, V>>, hashOf: K -> nat,
                                   queue: seq<nat>, members: set<nat>, nextId: nat)
  {
    && Placed(chains) && HashesAgree(chains, entries, hashOf) && KeysUnique(chains, entries)
    && ChainsDistinct(chains)
    && AllIn(chains, members)
    && entries.Keys <= members
    && (forall id :: id in members && id !in entries ==> id in queue)
    && (forall i :: 0 <= i < |queue| ==> queue[i] !in entries && queue[i] < nextId)
    && (members == {} || forall i :: 0 <= i < |queue| ==> queue[i] in members)
    && (forall id :: id in members ==> id < nextId)
  }

  /** Restructuring with everything queued purged yields a valid table with an
      empty queue, whose count is the live entries, and every key keeps its value. */
  lemma RestructuredTable<K, V>(chains: seq<seq<Ref>>, length: nat, entries: map<nat, Entry<K, V>>,
                                hashOf: K -> nat, queue: seq<nat>, members: set<nat>, nextId: nat)
    requires IndexInRange(|chains|) && IndexInRange(length)
    requires TableValid(chains, entries, hashOf, queue, members, nextId)
    ensures TableValid(Restructured(chains, length, entries, ToSet(queue)), entries, hashOf, [], entries.Keys, nextId)
    ensures |entries.Keys| == Max(|members| - |ToSet(queue)|, 0)
    ensures forall k :: LookupIn(Restructured(chains, length, entries, ToSet(queue)), k, hashOf(k), entries)
                     == LookupIn(chains, k, hashOf(k), entries)
  {
    var toPurge := ToSet(queue);
    RestructuredValid(chains, length, entries, toPurge, hashOf);
    RestructuredDistinct(chains, length, entries, toPurge);
    PurgedCount(members, entries.Keys, toPurge);
    forall k ensures LookupIn(Restructured(chains, length, entries, toPurge), k, hashOf(k), entries)
                  == LookupIn(chains, k, hashOf(k), entries)
    {
      RestructuredLookup(chains, length, entries, toPurge, hashOf, k);
    }
  }

  /** entry.setValue on a resolving reference keeps the table valid; its key
      now maps to the new value, every other key keeps its value. */
  lemma TableAfterSetValue<K, V>(chains: seq<seq<Ref>>, entries: map<nat, Entry<K, V>>, hashOf: K -> nat,
                                 queue: seq<nat>, members: set<nat>, nextId: nat, b: nat, r: Ref, v: V)
    requires IndexInRange(|chains|) && TableValid(chains, entries, hashOf, queue, members, nextId)
    requires b < |chains| && r in chains[b] && r.id in entries
    ensures var e2 := entries[r.id := Entry(entries[r.id].key, v)];
      && TableValid(chains, e2, hashOf, queue, members, nextId)
      && forall k :: LookupIn(chains, k, hashOf(k), e2) ==
           if k == entries[r.id].key then Some(v) else LookupIn(chains, k, hashOf(k), entries)
  {
    LookupAfterSetValue(chains, entries, hashOf, b, r, v, entries[r.id].key);
    forall k ensures LookupIn(chains, k, hashOf(k), entries[r.id := Entry(entries[r.id].key, v)]) ==
      if k == entries[r.id].key then Some(v) else LookupIn(chains, k, hashOf(k), entries)
    {
      LookupAfterSetValue(chains, entries, hashOf, b, r, v, k);
    }
  }

  /** ref.release() (and the collector clearing a referent) keeps the table
      valid once the reference is queued; its key is gone, every other key
      keeps its value. */
  lemma TableAfterRelease<K, V>(chains: seq<seq<Ref>>, entries: map<nat, Entry<K, V>>, hashOf: K -> nat,
                                queue: seq<nat>, members: set<nat>, nextId: nat, b: nat, r: Ref)
    requires IndexInRange(|chains|) && TableValid(chains, entries, hashOf, queue, members, nextId)
    requires b < |chains| && r in chains[b] && r.id in entries
    ensures TableValid(chains, entries - {r.id}, hashOf, queue + [r.id], members, nextId)
    ensures forall k :: LookupIn(chains, k, hashOf(k), entries - {r.id}) ==
                       if k == entries[r.id].key then None else LookupIn(chains, k, hashOf(k), entries)
  {
    LookupAfterRelease(chains, entries, hashOf, b, r, entries[r.id].key);
    forall k ensures LookupIn(chains, k, hashOf(k), entries - {r.id}) ==
      if k == entries[r.id].key then None else LookupIn(chains, k, hashOf(k), entries)
    {
      LookupAfterRelease(chains, entries, hashOf, b, r, k);
    }
    var q2 := queue + [r.id];
    forall i | 0 <= i < |q2| ensures q2[i] !in entries - {r.id} && q2[i] < nextId {
      if i < |queue| {
        assert q2[i] == queue[i];
      }
    }
    assert members != {};
  }

  /** Entries.add for a key the bucket does not hold keeps the table valid
      with the new reference counted; the key now maps to the value and every
      other key keeps its value. */
  lemma TableAfterAdd<K, V>(chains: seq<seq<Ref>>, entries: map<nat, Entry<K, V>>, hashOf: K -> nat,
                            members: set<nat>, nextId: nat, key: K, v: V)
    requires IndexInRange(|chains|) && TableValid(chains, entries, hashOf, [], members, nextId)
    requires ChainFind(chains[GetIndex(hashOf(key), |chains|)], key, hashOf(key), entries) == None
    ensures nextId !in members && nextId !in entries
    ensures var nr := Ref(nextId, hashOf(key));
      && TableValid(Pushed(chains, nr), entries[nextId := Entry(key, v)], hashOf, [], members + {nextId}, nextId + 1)
      && forall k :: LookupIn(Pushed(chains, nr), k, hashOf(k), entries[nextId := Entry(key, v)]) ==
           if k == key then Some(v) else LookupIn(chains, k, hashOf(k), entries)
  {
    var nr := Ref(nextId, hashOf(key));
    assert CanPush(chains, entries, hashOf, nr, key);
    PushedValid(chains, entries, hashOf, nr, key, v);
    PushedDistinct(chains, nr);
    forall k ensures LookupIn(Pushed(chains, nr), k, hashOf(k), entries[nextId := Entry(key, v)]) ==
      if k == key then Some(v) else LookupIn(chains, k, hashOf(k), entries)
    {
      LookupAfterAdd(chains, entries, hashOf, nr, key, v, k);
    }
    var c2 := Pushed(chains, nr);
    forall b: nat, y: Ref | 0 <= b < |c2| && y in c2[b] ensures y.id in members + {nextId} {
      PushedMember(chains, entries, hashOf, nr, key, b, y);
    }
  }

  /** What calculateShift's result means for a segment's initial size. */
  lemma SegmentSizeBounds(capacity: int, s: nat)
    requires Pow2(s) >= Min(capacity, MaximumSegmentSize)
    requires s > 0 ==> Pow2(s - 1) < Min(capacity, MaximumSegmentSize)
    ensures s <= 30 && Pow2(s) <= MaximumSegmentSize
    ensures Pow2(s) > 1 ==> Pow2(s) / 2 < Min(capacity, MaximumSegmentSize)
  {
    Pow2Values();
    ShiftAtMostBound(capacity, s, 30);
  }

  /** A table of empty buckets is valid with nothing counted and holds no key. */
  lemma EmptyTable<K, V>(chains: seq<seq<Ref>>, hashOf: K -> nat)
    requires forall b :: 0 <= b < |chains| ==> chains[b] == []
    ensures TableValid<K, V>(chains, map[], hashOf, [], {}, 0)
    ensures forall k :: LookupIn<K, V>(chains, k, hashOf(k), map[]) == None
  {
  }

  class Segment<K(==,!new), V(==)> {
    /** getHash of a key, as the unsigned value of the 32-bit word. */
    const hashOf: K -> nat
    /** The map's load factor, as the ratio loadNum / loadDen. */
    const loadNum: nat
    const loadDen: nat
    const initialSize: nat
    ghost const initialShift: nat

    var references: array<seq<Ref>>
    /** The entry each still resolving reference refers to, by reference id. */
    var entries: map<nat, Entry<K, V>>
    /** The reference queue, oldest first. */
    var queue: seq<nat>
    var count: int
    var resizeThreshold: int
    /** The id the next created reference gets. */
    var nextId: nat

    /** The references the count counts: the live ones and those cleared but not yet purged. */
    ghost var Members: set<nat>
    ghost var sizeShift: nat

    /** `(int) (length * loadFactor)`. */
    function Threshold(length: nat): int
      requires loadDen > 0
    {
      length * loadNum / loadDen
    }

    /** The array's length is a power of two at most 2^30, and the threshold is its share. */
    ghost predicate Shaped()
      reads this
    {
      && loadNum > 0 && loadDen > 0
      && initialShift <= 30 && initialSize == Pow2(initialShift)
      && sizeShift <= 30 && references.Length == Pow2(sizeShift)
      && resizeThreshold == Threshold(references.Length)
    }

    ghost predicate Valid()
      reads this, references
    {
      && Shaped()
      && TableValid(references[..], entries, hashOf, queue, Members, nextId)
      && count == |Members|
    }

    /** The value the segment holds for a key. */
    ghost function Lookup(key: K): Option<V>
      reads this, references
    {
      LookupIn(references[..], key, hashOf(key), entries)
    }

    /** Segment(initialCapacity): a table of the least power of two at least
        the capacity (at most 2^30) empty buckets. */
    constructor (initialCapacity: int, hashOf: K -> nat, loadNum: nat, loadDen: nat)
      requires loadNum > 0 && loadDen > 0
      ensures Valid() && fresh(references)
      ensures this.hashOf == hashOf && this.loadNum == loadNum && this.loadDen == loadDen
      ensures initialSize >= Min(initialCapacity, MaximumSegmentSize)
      ensures initialSize > 1 ==> initialSize / 2 < Min(initialCapacity, MaximumSegmentSize)
      ensures references.Length == initialSize && count == 0 && queue == [] && entries == map[]
      ensures forall k :: Lookup(k) == None
    {
      var shift := CalculateShift(initialCapacity, MaximumSegmentSize);
      SegmentSizeBounds(initialCapacity, shift);
      this.hashOf := hashOf;
      this.loadNum := loadNum;
      this.loadDen := loadDen;
      initialShift := shift;
      initialSize := Pow2(shift);
      var table := new seq<Ref>[Pow2(shift)](_ => []);
      EmptyTable<K, V>(table[..], hashOf);
      references := table;
      entries := map[];
      queue := [];
      count := 0;
      resizeThreshold := Pow2(shift) * loadNum / loadDen;
      nextId := 0;
      Members := {};
      sizeShift := shift;
    }

    /** Reference.get(): the entry, or None once it was released or collected. */
    function Resolve(r: Ref): (e: Option<Entry<K, V>>)
      reads this
      ensures e.Some? <==> r.id in entries
      ensures e.Some? ==> e.value == entries[r.id]
    {
      if r.id in entries then Some(entries[r.id]) else None
    }

    function GetSize(): nat
      reads this
    {
      references.Length
    }

    function GetCount(): int
      reads this
    {
      count
    }

    /** findInChain: walks the chain from its head to the first reference
        with the hash whose entry is still there and has the key. */
    method FindInChain(chain: seq<Ref>, key: K, hash: nat) returns (found: Option<Ref>)
      ensures found == ChainFind(chain, key, hash, entries)
    {
      var i := 0;
      while i < |chain|
        invariant 0 <= i <= |chain|
        invariant ChainFind(chain[i..], key, hash, entries) == ChainFind(chain, key, hash, entries)
      {
        var curr := chain[i];
        assert chain[i..][1..] == chain[i + 1..];
        if curr.hash == hash {
          var entry := Resolve(curr);
          if entry.Some? && entry.value.key == key {
            return Some(curr);
          }
        }
        i := i + 1;
      }
      return None;
    }

    lemma EmptyHasNoKeys(key: K)
      requires Valid() && count == 0
      ensures Lookup(key) == None
    {
      if |references[..]| > 0 && GetIndex(hashOf(key), references.Length) < references.Length {
        var c := references[..][GetIndex(hashOf(key), references.Length)];
        assert forall x :: x in c ==> !Matches(x, key, hashOf(key), entries);
      }
    }

    /** The polling loop of restructureIfNecessary: everything queued, as a set. */
    method DrainQueue() returns (toPurge: set<nat>)
      modifies this`queue
      ensures queue == [] && toPurge == ToSet(old(queue))
    {
      toPurge := {};
      while queue != []
        invariant toPurge + ToSet(queue) == ToSet(old(queue))
        decreases |queue|
      {
        assert ToSet(queue) == {queue[0]} + ToSet(queue[1..]);
        toPurge := toPurge + {queue[0]};
        queue := queue[1..];
      }
    }

    method SetReferences(a: array<seq<Ref>>)
      requires loadDen > 0
      modifies this`references, this`resizeThreshold
      ensures references == a && resizeThreshold == Threshold(a.Length)
    {
      references := a;
      resizeThreshold := a.Length * loadNum / loadDen;
    }

    /** The inner relinking loop: walks one chain and pushes every reference
        that is not purged and still resolves, as a new reference with the
        same entry and hash, on the head of its bucket in `restructured`.
        Slots below `scope` hold the relinking of the references visited
        before (`prefix`); the chain only reaches those slots. */
    method RelinkChain(restructured: array<seq<Ref>>, chain: seq<Ref>, toPurge: set<nat>,
                       ghost prefix: seq<Ref>, ghost scope: nat)
      requires IndexInRange(restructured.Length)
      requires RelinkedBelow(restructured[..], prefix, scope, entries, toPurge)
      requires forall r :: r in chain ==> GetIndex(r.hash, restructured.Length) < scope
      modifies restructured
      ensures RelinkedBelow(restructured[..], prefix + chain, scope, entries, toPurge)
      ensures restructured[scope..] == old(restructured[..])[scope..]
    {
      var L := restructured.Length;
      var j := 0;
      assert prefix + chain[..0] == prefix;
      while j < |chain|
        invariant 0 <= j <= |chain|
        invariant RelinkedBelow(restructured[..], prefix + chain[..j], scope, entries, toPurge)
        invariant restructured[scope..] == old(restructured[..])[scope..]
      {
        var r := chain[j];
        ghost var t := restructured[..];
        assert prefix + chain[..j + 1] == (prefix + chain[..j]) + [r];
        RelinkStep(t, prefix + chain[..j], r, scope, entries, toPurge);
        if r.id !in toPurge && r.id in entries {
          var index := GetIndex(r.hash, L);
          restructured[index] := [r] + restructured[index];
          assert restructured[..] == Pushed(t, r);
        }
        j := j + 1;
      }
      assert chain[..|chain|] == chain;
    }

    /** The relinking loops of restructureIfNecessary over every chain of the
        current array, into a fresh empty array when resizing, else into the
        current array, each slot emptied just before its chain is walked. */
    method RelinkAll(restructured: array<seq<Ref>>, toPurge: set<nat>, resizing: bool)
      requires IndexInRange(restructured.Length) && references.Length >= 1
      requires Placed(references[..])
      requires resizing ==> restructured != references
      requires resizing ==> forall x :: 0 <= x < restructured.Length ==> restructured[x] == []
      requires !resizing ==> restructured == references
      modifies restructured
      ensures restructured[..] == Restructured(old(references[..]), restructured.Length, entries, toPurge)
    {
      ghost var src := references[..];
      var L := restructured.Length;
      var i := 0;
      while i < references.Length
        invariant 0 <= i <= references.Length == |src|
        invariant resizing ==> references[..] == src
        invariant !resizing ==> restructured[..][i..] == src[i..]
        invariant RelinkedBelow(restructured[..], Flatten(src[..i]), if resizing then L else i, entries, toPurge)
      {
        var chain := references[i];
        assert chain == src[i];
        if !resizing {
          assert restructured[..][i..][0] == src[i..][0];
          ghost var before := restructured[..];
          restructured[i] := [];
          EarlierBucketsElsewhere(src, i, entries, toPurge);
          assert restructured[..][i + 1..] == before[i + 1..];
          assert forall r :: r in chain ==> GetIndex(r.hash, L) == i;
        }
        RelinkChain(restructured, chain, toPurge, Flatten(src[..i]), if resizing then L else i + 1);
        FlattenStep(src, i);
        i := i + 1;
      }
      assert src[..i] == src;
    }

    /** restructureIfNecessary: when something is queued or a resize is
        allowed and due, restructures; otherwise does nothing. */
    method RestructureIfNecessary(allowResize: bool)
      requires Valid()
      modifies this, references
      ensures Valid()
      ensures entries == old(entries) && queue == [] && nextId == old(nextId)
      ensures count == |entries| && count == Max(old(count) - |ToSet(old(queue))|, 0)
      ensures Grows(old(queue), old(count), old(resizeThreshold), old(references.Length), allowResize) ==>
        fresh(references) && references.Length == 2 * old(references.Length)
      ensures !Grows(old(queue), old(count), old(resizeThreshold), old(references.Length), allowResize) ==>
        references == old(references)
      ensures Runs(old(queue), old(count), old(resizeThreshold), allowResize) ==>
        references[..] == Restructured(old(references[..]), references.Length, old(entries), ToSet(old(queue)))
      ensures !Runs(old(queue), old(count), old(resizeThreshold), allowResize) ==>
        references[..] == old(references[..])
      ensures forall k :: Lookup(k) == old(Lookup(k))
    {
      var needsResize := count > 0 && count >= resizeThreshold;
      if queue != [] || (needsResize && allowResize) {
        Restructure(allowResize);
      } else {
        PurgedCount(Members, entries.Keys, {});
      }
    }

    /** The locked part of restructureIfNecessary: drains the queue, then
        rebuilds the chains without the drained references and those that no
        longer resolve, doubling the array when allowed, the remaining count
        reaches the threshold and the array is below 2^30 slots. */
    method Restructure(allowResize: bool)
      requires Valid() && Runs(queue, count, resizeThreshold, allowResize)
      modifies this, references
      ensures Valid()
      ensures entries == old(entries) && queue == [] && nextId == old(nextId)
      ensures count == |entries| && count == Max(old(count) - |ToSet(old(queue))|, 0)
      ensures Grows(old(queue), old(count), old(resizeThreshold), old(references.Length), allowResize) ==>
        fresh(references) && references.Length == 2 * old(references.Length)
      ensures !Grows(old(queue), old(count), old(resizeThreshold), old(references.Length), allowResize) ==>
        references == old(references)
      ensures references[..] == Restructured(old(references[..]), references.Length, old(entries), ToSet(old(queue)))
      ensures forall k :: Lookup(k) == old(Lookup(k))
    {
      ghost var src := references[..];
      ghost var oldQueue := queue;
      ghost var oldMembers := Members;
      Pow2InRange(sizeShift);
      var toPurge := DrainQueue();
      var countAfterRestructure := count - |toPurge|;
      var restructured, resizing := NewTable(countAfterRestructure, allowResize);
      RelinkAll(restructured, toPurge, resizing);
      if resizing {
        SetReferences(restructured);
        sizeShift := sizeShift + 1;
      }
      RestructuredTable(src, references.Length, entries, hashOf, oldQueue, oldMembers, nextId);
      count := Max(countAfterRestructure, 0);
      Members := entries.Keys;
    }

    /** The array restructuring relinks into: when a resize is allowed and the
        count left after purging reaches the threshold, a fresh empty one of
        twice the length (unless already at the maximum), else the current one. */
    method NewTable(countAfterRestructure: int, allowResize: bool) returns (restructured: array<seq<Ref>>, resizing: bool)
      requires Shaped()
      ensures resizing <==> allowResize && countAfterRestructure > 0 && countAfterRestructure >= resizeThreshold
                            && references.Length < MaximumSegmentSize
      ensures resizing ==> fresh(restructured) && sizeShift < 30 && restructured.Length == Pow2(sizeShift + 1)
                           && restructured.Length == 2 * references.Length && IndexInRange(restructured.Length)
                           && forall x :: 0 <= x < restructured.Length ==> restructured[x] == []
      ensures !resizing ==> restructured == references
    {
      var needsResize := countAfterRestructure > 0 && countAfterRestructure >= resizeThreshold;
      resizing := false;
      var restructureSize := references.Length;
      if allowResize && needsResize && restructureSize < MaximumSegmentSize {
        Pow2Values();
        assert sizeShift < 30;
        restructureSize := restructureSize * 2;
        resizing := true;
      }
      if resizing {
        restructured := new seq<Ref>[restructureSize](_ => []);
        Pow2InRange(sizeShift + 1);
      } else {
        restructured := references;
      }
    }

    /** Entry.setValue on the entry of a resolving reference. */
    method SetEntryValue(ghost b: nat, r: Ref, value: V)
      requires Valid() && b < references.Length && r in references[b] && r.id in entries
      modifies this`entries
      ensures Valid()
      ensures entries == old(entries)[r.id := Entry(old(entries)[r.id].key, value)]
      ensures forall k :: Lookup(k) == if k == old(entries)[r.id].key then Some(value) else old(Lookup(k))
    {
      Pow2InRange(sizeShift);
      TableAfterSetValue(references[..], entries, hashOf, queue, Members, nextId, b, r, value);
      entries := entries[r.id := Entry(entries[r.id].key, value)];
    }

    /** Reference.release(): enqueues the reference and clears its referent.
        The collector clearing a soft reference does the same, so this also
        stands for garbage collection of an entry. The count is only lowered
        when the queue is next drained. */
    method Release(ghost b: nat, r: Ref)
      requires Valid() && b < references.Length && r in references[b] && r.id in entries
      modifies this`entries, this`queue
      ensures Valid()
      ensures entries == old(entries) - {r.id} && queue == old(queue) + [r.id]
      ensures forall k :: Lookup(k) == if k == old(entries)[r.id].key then None else old(Lookup(k))
    {
      Pow2InRange(sizeShift);
      TableAfterRelease(references[..], entries, hashOf, queue, Members, nextId, b, r);
      queue := queue + [r.id];
      entries := entries - {r.id};
    }

    /** Entries.add inside doTask: a new reference to a new entry, linked in
        front of the head that was read, becomes the head of the bucket. */
    method Add(index: nat, head: seq<Ref>, key: K, hash: nat, value: V)
      requires Valid() && queue == [] && hash == hashOf(key)
      requires index == GetIndex(hash, references.Length) && index < references.Length
      requires head == references[index] && ChainFind(head, key, hash, entries) == None
      modifies this, references
      ensures Valid() && references == old(references) && IndexInRange(|old(references[..])|)
      ensures references[..] == Pushed(old(references[..]), Ref(old(nextId), hash))
      ensures old(nextId) !in old(entries) && entries == old(entries)[old(nextId) := Entry(key, value)]
      ensures count == old(count) + 1 && nextId == old(nextId) + 1 && queue == []
      ensures forall k :: Lookup(k) == if k == key then Some(value) else old(Lookup(k))
    {
      Pow2InRange(sizeShift);
      TableAfterAdd(references[..], entries, hashOf, Members, nextId, key, value);
      var newReference := Ref(nextId, hash);
      references[index] := [newReference] + head;
      entries := entries[nextId := Entry(key, value)];
      nextId := nextId + 1;
      count := count + 1;
      Members := Members + {newReference.id};
    }

    /** getReference: the reference resolving to the key's entry, restructuring
        first when asked; None when the count is 0 or the key is absent. */
    method GetReference(key: K, hash: nat, restructure: Restructure) returns (found: Option<Ref>)
      requires Valid() && hash == hashOf(key)
      modifies this, references
      ensures Valid() && entries == old(entries) && references == old(references)
      ensures restructure == Never ==> unchanged(this) && unchanged(references)
      ensures forall k :: Lookup(k) == old(Lookup(k))
      ensures found.None? <==> Lookup(key).None?
      ensures found.Some? ==> found.value.id in entries && entries[found.value.id].key == key
                              && Lookup(key) == Some(entries[found.value.id].value)
      ensures found.Some? ==> IndexInRange(references.Length)
                              && found.value in references[GetIndex(hash, references.Length)]
    {
      if restructure == WhenNecessary {
        RestructureIfNecessary(false);
      }
      if count == 0 {
        EmptyHasNoKeys(key);
        return None;
      }
      Pow2InRange(sizeShift);
      var index := GetIndex(hash, references.Length);
      var head := references[index];
      found := FindInChain(head, key, hash);
    }

    /** doTask: restructures before when `task` asks for it, answers an
        empty segment without looking when `task` allows a skip, else runs
        `task` under the lock and restructures after when `task` asks for it.
        Only the key's value changes. */
    method DoTask(hash: nat, key: K, task: Task<V>) returns (result: TaskResult<V>)
      requires Valid() && hash == hashOf(key)
      modifies this, references
      ensures Valid() && count == |entries|
      ensures result == Execute(task, old(Lookup(key))).0
      ensures Lookup(key) == ValueAfter(Execute(task, old(Lookup(key))).1, old(Lookup(key)))
      ensures forall k :: k != key ==> Lookup(k) == old(Lookup(k))
      ensures |entries| == |old(entries)| + Delta(Execute(task, old(Lookup(key))).1)
      ensures references == old(references) || fresh(references)
      ensures SkipIfEmpty in Options(task) && RestructureBefore !in Options(task) && old(count) == 0 ==>
        unchanged(this) && unchanged(references)
    {
      var resize := Resize in Options(task);
      if RestructureBefore in Options(task) {
        RestructureIfNecessary(resize);
      }
      if SkipIfEmpty in Options(task) && count == 0 {
        EmptyHasNoKeys(key);
        result := Execute(task, None).0;
        return;
      }
      result := RunTask(hash, key, task);
      if RestructureAfter in Options(task) {
        RestructureIfNecessary(resize);
      }
    }

    /** The locked block of doTask: finds the key's reference and its entry in
        the bucket the hash selects and executes `task` on them. */
    method RunTask(hash: nat, key: K, task: Task<V>) returns (result: TaskResult<V>)
      requires Valid() && hash == hashOf(key)
      requires RestructureBefore in Options(task) ==> queue == [] && count == |entries|
      modifies this, references
      ensures Valid() && references == old(references)
      ensures result == Execute(task, old(Lookup(key))).0
      ensures Lookup(key) == ValueAfter(Execute(task, old(Lookup(key))).1, old(Lookup(key)))
      ensures forall k :: k != key ==> Lookup(k) == old(Lookup(k))
      ensures RestructureBefore in Options(task) ==> count == |entries|
      ensures |entries| == |old(entries)| + Delta(Execute(task, old(Lookup(key))).1)
    {
      Pow2InRange(sizeShift);
      var index := GetIndex(hash, references.Length);
      var head := references[index];
      var ref := FindInChain(head, key, hash);
      var entry := if ref.Some? then Resolve(ref.value) else None;
      var found := if entry.Some? then Some(entry.value.value) else None;
      assert found == Lookup(key);
      var outcome := Execute(task, found);
      result := outcome.0;
      match outcome.1 {
        case Keep =>
        case SetValue(v) =>
          SetEntryValue(index, ref.value, v);
        case ReleaseRef =>
          Release(index, ref.value);
        case AddEntry(v) =>
          Add(index, head, key, hash, v);
      }
    }

    /** Segment.clear: when the count is not 0, a fresh array of the initial
        size and a count of 0. The reference queue is left as it is. */
    method Clear()
      requires Valid()
      modifies this
      ensures Valid() && count == 0 && queue == old(queue) && nextId == old(nextId)
      ensures forall k :: Lookup(k) == None
      ensures old(count) == 0 ==> unchanged(this)
      ensures old(count) != 0 ==> fresh(references) && references.Length == initialSize
    {
      if count != 0 {
        var a := new seq<Ref>[initialSize](_ => []);
        SetReferences(a);
        count := 0;
        entries := map[];
        Members := {};
        sizeShift := initialShift;
      } else {
        forall k ensures Lookup(k) == None {
          EmptyHasNoKeys(k);
        }
      }
    }
  }
}
