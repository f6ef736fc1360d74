/** ConcurrentReferenceHashMap: a fixed array of 2^shift segments, the
    segment of a key chosen by the top `shift` bits of its mixed hash. Every
    update is a task run by the key's segment. */
module RefMaps {
  import opened Wrappers
  import opened JavaInt
  import opened Hashing
  import opened Chains
  import opened Segments

  datatype ReferenceType = Soft | Weak

  const DefaultInitialCapacity: int := 16
  const DefaultConcurrencyLevel: int := 16
  /** DEFAULT_LOAD_FACTOR 0.75 as a ratio. */
  const DefaultLoadNum: nat := 3
  const DefaultLoadDen: nat := 4
  const DefaultReferenceType: ReferenceType := Soft

  /** The constructor's argument checks (Assert.isTrue). */
  datatype ArgumentError = NegativeCapacity | NonPositiveLoadFactor | NonPositiveConcurrency

  /** getHash of a key whose hashCode is given (a null key's hashCode is 0). */
  function KeyHash<K>(hashCode: K -> bv32, key: K): nat
  {
    Unsigned(GetHash(hashCode(key)))
  }

  /** The per-segment capacity `ceil(initialCapacity / size)`, computed without
      overflow. */
  function SegmentCapacity(initialCapacity: int, size: nat): (r: int)
    requires initialCapacity >= 0 && size >= 1
    ensures r >= 0 && r * size >= initialCapacity && (r - 1) * size < initialCapacity
  {
    var q := (initialCapacity + size - 1) / size;
    assert q * size + (initialCapacity + size - 1) % size == initialCapacity + size - 1;
    q
  }

  /** `(int) (((long) (initialCapacity + size) - 1L) / (long) size)` as written:
      the sum is an int sum and wraps before it is widened. */
  function RoundedUpSegmentCapacity(initialCapacity: int, size: int): int
    requires size >= 1
  {
    Wrap32(TruncDiv(Wrap32(initialCapacity + size) - 1, size))
  }

  /** Without overflow the expression as written is the intended capacity. */
  lemma RoundedUpAgrees(initialCapacity: int, size: nat)
    requires 0 <= initialCapacity && 1 <= size <= MaximumConcurrencyLevel
    requires initialCapacity + size < 0x8000_0000
    ensures RoundedUpSegmentCapacity(initialCapacity, size) == SegmentCapacity(initialCapacity, size)
  {
    var x := initialCapacity + size;
    assert Wrap32(x) == x;
    var q := (x - 1) / size;
    assert TruncDiv(x - 1, size) == q;
    DivLeast(x - 1, size);
    assert Wrap32(q) == q;
  }

  lemma DivLeast(a: nat, d: nat)
    requires d >= 1
    ensures a / d <= a
  {
    var q := a / d;
    assert a == q * d + a % d;
    if q > 0 {
      MulAtLeast(d, q);
    }
  }

  /** With the largest int capacity and 16 segments the int sum wraps: each
      segment is asked for a negative capacity, whereas 2^27 was meant. */
  lemma RoundedUpOverflows()
    ensures RoundedUpSegmentCapacity(0x7FFF_FFFF, 16) == -134217727
    ensures SegmentCapacity(0x7FFF_FFFF, 16) == 134217728
  {
    assert Wrap32(0x7FFF_FFFF + 16) == -2147483633;
    assert TruncDiv(-2147483634, 16) == -134217727;
  }

  /** A capacity of at most 1 gives a segment of a single bucket: calculateShift
      then returns 0. */
  lemma ShiftForSmallCapacity(m: int, s: nat, M: int)
    requires m <= 1 && 1 <= M
    requires Pow2(s) >= Min(m, M) && (s > 0 ==> Pow2(s - 1) < Min(m, M))
    ensures s == 0 && Pow2(s) == 1
  {
  }

  /** The segments own distinct arrays within `repr`, each segment is valid
      and hashes keys with getHash. */
  ghost predicate SegmentsValid<K(!new), V>(segs: seq<Segment<K, V>>, repr: set<object>, hashCode: K -> bv32)
    reads repr
  {
    && (forall i :: 0 <= i < |segs| ==> segs[i] in repr && segs[i].references in repr)
    && (forall i, j :: 0 <= i < |segs| && 0 <= j < |segs| && i != j ==>
          segs[i] != segs[j] && segs[i].references != segs[j].references)
    && (forall i :: 0 <= i < |segs| ==> segs[i].Valid())
    && (forall i, k :: 0 <= i < |segs| ==> segs[i].hashOf(k) == KeyHash(hashCode, k))
  }

  class ConcurrentReferenceHashMap<K(==,!new), V(==)> {
    const segments: seq<Segment<K, V>>
    const shift: nat
    /** The keys' hashCode (0 for null). */
    const hashCode: K -> bv32
    const loadNum: nat
    const loadDen: nat
    const referenceType: ReferenceType
    ghost var Repr: set<object>

    ghost predicate Valid()
      reads this, Repr
    {
      && shift <= 16 && |segments| == Pow2(shift)
      && SegmentsValid(segments, Repr, hashCode)
      && KeysPlaced()
    }

    /** A key has a value only in the segment its hash selects. */
    ghost predicate KeysPlaced()
      reads this, Repr
      requires shift <= 16 && Framed()
    {
      forall i, k :: 0 <= i < |segments| && segments[i].Lookup(k).Some? ==> i == SegmentFor(k)
    }

    /** The segments and their arrays lie within Repr. */
    ghost predicate Framed()
      reads this, Repr
    {
      forall i :: 0 <= i < |segments| ==> segments[i] in Repr && segments[i].references in Repr
    }

    lemma ValidFramed()
      requires Valid()
      ensures Framed()
    {
    }

    /** getSegmentForHash: `hash >>> (32 - shift) & (segments.length - 1)`. */
    function SegmentFor(key: K): (i: nat)
      requires shift <= 16
      ensures i < Pow2(shift)
    {
      SegmentIndexBound(KeyHash(hashCode, key), shift);
      SegmentIndex(KeyHash(hashCode, key), shift)
    }

    /** The value the map holds for a key. */
    ghost function Lookup(key: K): Option<V>
      reads this, Repr
      requires Valid()
    {
      segments[SegmentFor(key)].Lookup(key)
    }

    /** The sum of the counts of the first n segments. */
    ghost function TotalCount(n: nat): int
      reads this, Repr
      requires Valid() && n <= |segments|
    {
      if n == 0 then 0 else TotalCount(n - 1) + segments[n - 1].count
    }

    /** When only segment `s` changed (its array possibly replaced by a fresh
        one), the map is still valid and every other segment reads as before. */
    twostate lemma OnlySegmentChanged(s: nat)
      requires old(Valid()) && s < |segments|
      requires forall i :: 0 <= i < |segments| && i != s ==>
        unchanged(segments[i]) && unchanged(old(segments[i].references))
      requires segments[s].Valid()
      requires segments[s].references == old(segments[s].references) || fresh(segments[s].references)
      requires Repr == old(Repr) + {segments[s].references}
      requires forall k :: segments[s].Lookup(k).Some? ==> old(segments[s].Lookup(k)).Some? || SegmentFor(k) == s
      ensures Valid()
      ensures forall j, k :: 0 <= j < |segments| && j != s ==> segments[j].Lookup(k) == old(segments[j].Lookup(k))
    {
    }

    /** The constructor: 2^shift segments for the least power of two at least
        the concurrency level (at most 2^16), each sized by the expression as
        written for its share of the initial capacity. That is the share
        rounded up unless `initialCapacity + size` overflows an int, and a
        single bucket when the wrapped share is at most 1. */
    constructor (initialCapacity: int, loadNum: nat, loadDen: nat, concurrencyLevel: int,
                 referenceType: ReferenceType, hashCode: K -> bv32)
      requires 0 <= initialCapacity < 0x8000_0000 && loadNum > 0 && loadDen > 0 && concurrencyLevel > 0
      ensures Valid() && fresh(Repr)
      ensures this.hashCode == hashCode && this.loadNum == loadNum && this.loadDen == loadDen
      ensures this.referenceType == referenceType
      ensures |segments| <= MaximumConcurrencyLevel
      ensures |segments| >= Min(concurrencyLevel, MaximumConcurrencyLevel)
      ensures |segments| > 1 ==> |segments| / 2 < Min(concurrencyLevel, MaximumConcurrencyLevel)
      ensures EmptySegments(segments, Repr, hashCode, RoundedUpSegmentCapacity(initialCapacity, |segments|))
      ensures initialCapacity + |segments| < 0x8000_0000 ==>
        RoundedUpSegmentCapacity(initialCapacity, |segments|) == SegmentCapacity(initialCapacity, |segments|)
      ensures RoundedUpSegmentCapacity(initialCapacity, |segments|) <= 1 ==>
        forall j :: 0 <= j < |segments| ==> segments[j].initialSize == 1
      ensures forall k :: Lookup(k) == None
    {
      var s := CalculateShift(concurrencyLevel, MaximumConcurrencyLevel);
      SegmentCountBounds(concurrencyLevel, s);
      var size := Pow2(s);
      var capacity := RoundedUpSegmentCapacity(initialCapacity, size);
      var segs, repr := MakeSegments(size, capacity, hashCode, loadNum, loadDen);
      segments := segs;
      shift := s;
      this.hashCode := hashCode;
      this.loadNum := loadNum;
      this.loadDen := loadDen;
      this.referenceType := referenceType;
      Repr := repr;
      new;
      EmptyValid(capacity);
      if initialCapacity + size < 0x8000_0000 {
        RoundedUpAgrees(initialCapacity, size);
      }
      SmallCapacitySegments(segs, repr, hashCode, capacity);
    }

    /** Fresh empty segments of the right number make a valid map without keys. */
    lemma EmptyValid(capacity: int)
      requires shift <= 16 && |segments| == Pow2(shift) && EmptySegments(segments, Repr, hashCode, capacity)
      ensures Valid() && forall k :: Lookup(k) == None
    {
    }

    /** doTask on the map: a task runs in the segment the key's hash selects;
        no other segment changes. */
    method Apply(key: K, task: Task<V>) returns (result: TaskResult<V>)
      requires Valid()
      modifies this, Repr
      ensures Valid() && fresh(Repr - old(Repr))
      ensures result == Execute(task, old(Lookup(key))).0
      ensures Lookup(key) == ValueAfter(Execute(task, old(Lookup(key))).1, old(Lookup(key)))
      ensures forall k :: k != key ==> Lookup(k) == old(Lookup(k))
      ensures forall i :: 0 <= i < |segments| && i != SegmentFor(key) ==> segments[i].count == old(segments[i].count)
      ensures segments[SegmentFor(key)].count == |segments[SegmentFor(key)].entries|
      ensures |segments[SegmentFor(key)].entries|
        == |old(segments[SegmentFor(key)].entries)| + Delta(Execute(task, old(Lookup(key))).1)
    {
      var s := SegmentFor(key);
      result := RunInSegment(s, key, task);
      Repr := Repr + {segments[s].references};
      assert forall k :: segments[s].Lookup(k).Some? ==> old(segments[s].Lookup(k)).Some? || k == key;
      OnlySegmentChanged(s);
      forall k | k != key ensures Lookup(k) == old(Lookup(k)) {
        if SegmentFor(k) == s {
          assert segments[s].Lookup(k) == old(segments[s].Lookup(k));
        }
      }
    }

    /** The segment the key's hash selects runs the task; only that segment
        and its array may change. */
    method RunInSegment(s: nat, key: K, task: Task<V>) returns (result: TaskResult<V>)
      requires Valid() && s == SegmentFor(key)
      modifies segments[s], segments[s].references
      ensures segments[s].Valid() && segments[s].count == |segments[s].entries|
      ensures result == Execute(task, old(segments[s].Lookup(key))).0
      ensures segments[s].Lookup(key) == ValueAfter(Execute(task, old(segments[s].Lookup(key))).1, old(segments[s].Lookup(key)))
      ensures forall k :: k != key ==> segments[s].Lookup(k) == old(segments[s].Lookup(k))
      ensures |segments[s].entries| == |old(segments[s].entries)| + Delta(Execute(task, old(segments[s].Lookup(key))).1)
      ensures segments[s].references == old(segments[s].references) || fresh(segments[s].references)
    {
      var segment := segments[s];
      result := segment.DoTask(KeyHash(hashCode, key), key, task);
    }

    /** put: the previous value, and the key is mapped to the value. */
    method Put(key: K, value: V) returns (previous: Option<V>)
      requires Valid()
      modifies this, Repr
      ensures Valid() && fresh(Repr - old(Repr))
      ensures previous == old(Lookup(key)) && Lookup(key) == Some(value)
      ensures forall k :: k != key ==> Lookup(k) == old(Lookup(k))
    {
      var r := Apply(key, PutTask(value, true));
      previous := r.previous;
    }

    /** putIfAbsent: the existing value, left unchanged when present; the
        value is inserted when absent. */
    method PutIfAbsent(key: K, value: V) returns (previous: Option<V>)
      requires Valid()
      modifies this, Repr
      ensures Valid() && fresh(Repr - old(Repr))
      ensures previous == old(Lookup(key))
      ensures Lookup(key) == if previous.Some? then previous else Some(value)
      ensures forall k :: k != key ==> Lookup(k) == old(Lookup(k))
    {
      var r := Apply(key, PutTask(value, false));
      previous := r.previous;
    }

    /** remove(key): the previous value, and the key is absent afterwards. */
    method Remove(key: K) returns (previous: Option<V>)
      requires Valid()
      modifies this, Repr
      ensures Valid() && fresh(Repr - old(Repr))
      ensures previous == old(Lookup(key)) && Lookup(key) == None
      ensures forall k :: k != key ==> Lookup(k) == old(Lookup(k))
    {
      var r := Apply(key, RemoveTask);
      previous := r.previous;
    }

    /** remove(key, value): removes only when the key maps to that value. */
    method RemoveIf(key: K, value: V) returns (removed: bool)
      requires Valid()
      modifies this, Repr
      ensures Valid() && fresh(Repr - old(Repr))
      ensures removed <==> old(Lookup(key)) == Some(value)
      ensures Lookup(key) == if removed then None else old(Lookup(key))
      ensures forall k :: k != key ==> Lookup(k) == old(Lookup(k))
    {
      var r := Apply(key, RemoveIfTask(value));
      removed := r.done;
    }

    /** replace(key, oldValue, newValue): compare-and-set on the key's value. */
    method ReplaceIf(key: K, oldValue: V, newValue: V) returns (replaced: bool)
      requires Valid()
      modifies this, Repr
      ensures Valid() && fresh(Repr - old(Repr))
      ensures replaced <==> old(Lookup(key)) == Some(oldValue)
      ensures Lookup(key) == if replaced then Some(newValue) else old(Lookup(key))
      ensures forall k :: k != key ==> Lookup(k) == old(Lookup(k))
    {
      var r := Apply(key, ReplaceIfTask(oldValue, newValue));
      replaced := r.done;
    }

    /** replace(key, value): overwrites a present value and returns the old
        one; an absent key stays absent. */
    method Replace(key: K, value: V) returns (previous: Option<V>)
      requires Valid()
      modifies this, Repr
      ensures Valid() && fresh(Repr - old(Repr))
      ensures previous == old(Lookup(key))
      ensures Lookup(key) == if previous.Some? then Some(value) else None
      ensures forall k :: k != key ==> Lookup(k) == old(Lookup(k))
    {
      var r := Apply(key, ReplaceTask(value));
      previous := r.previous;
    }

    /** getEntryIfAvailable: the entry of the key's reference, found after
        restructuring the key's segment when necessary (never resizing). */
    method GetEntryIfAvailable(key: K) returns (entry: Option<Entry<K, V>>)
      requires Valid()
      modifies Repr
      ensures Valid() && Repr == old(Repr)
      ensures forall k :: Lookup(k) == old(Lookup(k))
      ensures entry.None? <==> Lookup(key).None?
      ensures entry.Some? ==> entry.value.key == key && Lookup(key) == Some(entry.value.value)
    {
      var hash := KeyHash(hashCode, key);
      var segment := segments[SegmentFor(key)];
      var ref := segment.GetReference(key, hash, WhenNecessary);
      entry := if ref.Some? then segment.Resolve(ref.value) else None;
      OnlySegmentChanged(SegmentFor(key));
    }

    /** get: the key's value (`None` for Java's null). */
    method Get(key: K) returns (value: Option<V>)
      requires Valid()
      modifies Repr
      ensures Valid() && Repr == old(Repr)
      ensures value == Lookup(key) && forall k :: Lookup(k) == old(Lookup(k))
    {
      var entry := GetEntryIfAvailable(key);
      value := if entry.Some? then Some(entry.value.value) else None;
    }

    /** getOrDefault: the key's value, or the default when absent. */
    method GetOrDefault(key: K, defaultValue: V) returns (value: V)
      requires Valid()
      modifies Repr
      ensures Valid() && Repr == old(Repr)
      ensures value == if Lookup(key).Some? then Lookup(key).value else defaultValue
      ensures forall k :: Lookup(k) == old(Lookup(k))
    {
      var entry := GetEntryIfAvailable(key);
      value := if entry.Some? then entry.value.value else defaultValue;
    }

    /** containsKey: an entry was found and its key equals the key. */
    method ContainsKey(key: K) returns (b: bool)
      requires Valid()
      modifies Repr
      ensures Valid() && Repr == old(Repr)
      ensures b <==> Lookup(key).Some?
      ensures forall k :: Lookup(k) == old(Lookup(k))
    {
      var entry := GetEntryIfAvailable(key);
      b := entry.Some? && NullSafeEquals(Some(entry.value.key), Some(key));
    }

    /** The collector clearing the soft (or weak) reference of a key's entry
        and enqueueing it; true when there was one. The count only drops when
        the segment is next restructured. */
    method Reclaim(key: K) returns (collected: bool)
      requires Valid()
      modifies Repr
      ensures Valid() && Repr == old(Repr)
      ensures collected <==> old(Lookup(key)).Some?
      ensures Lookup(key) == None && forall k :: k != key ==> Lookup(k) == old(Lookup(k))
      ensures forall i :: 0 <= i < |segments| ==> segments[i].count == old(segments[i].count)
    {
      var hash := KeyHash(hashCode, key);
      var segment := segments[SegmentFor(key)];
      var ref := segment.GetReference(key, hash, Never);
      collected := ref.Some?;
      if ref.Some? {
        segment.Release(GetIndex(hash, segment.references.Length), ref.value);
      }
      OnlySegmentChanged(SegmentFor(key));
    }

    /** Zero counts everywhere mean no key is present. */
    lemma ZeroCountsNoKeys()
      requires Valid() && forall i :: 0 <= i < |segments| ==> segments[i].count == 0
      ensures forall k :: Lookup(k) == None
    {
      forall k ensures Lookup(k) == None {
        segments[SegmentFor(k)].EmptyHasNoKeys(k);
      }
    }

    /** The total of non-negative counts is 0 exactly when each is 0. */
    lemma {:induction false} TotalCountZero(n: nat)
      requires Valid() && n <= |segments|
      ensures TotalCount(n) >= 0
      ensures TotalCount(n) == 0 <==> forall i :: 0 <= i < n ==> segments[i].count == 0
    {
      if n > 0 {
        TotalCountZero(n - 1);
      }
    }

    /** size: the sum of the segment counts. */
    method Size() returns (size: int)
      requires Valid()
      ensures size == TotalCount(|segments|) && size >= 0
      ensures size == 0 ==> forall k :: Lookup(k) == None
    {
      size := 0;
      var i := 0;
      while i < |segments|
        invariant 0 <= i <= |segments| && size == TotalCount(i)
      {
        size := size + segments[i].GetCount();
        i := i + 1;
      }
      TotalCountZero(|segments|);
      if size == 0 {
        ZeroCountsNoKeys();
      }
    }

    /** isEmpty: no segment has a count above 0. */
    method IsEmpty() returns (empty: bool)
      requires Valid()
      ensures empty <==> forall i :: 0 <= i < |segments| ==> segments[i].count == 0
      ensures empty <==> TotalCount(|segments|) == 0
      ensures empty ==> forall k :: Lookup(k) == None
    {
      TotalCountZero(|segments|);
      var i := 0;
      while i < |segments|
        invariant 0 <= i <= |segments|
        invariant forall j :: 0 <= j < i ==> segments[j].count == 0
      {
        if segments[i].GetCount() > 0 {
          return false;
        }
        i := i + 1;
      }
      ZeroCountsNoKeys();
      return true;
    }

    /** clear: every non-empty segment gets a fresh array of its initial size
        and a count of 0; no key is present afterwards. */
    method Clear()
      requires Valid()
      modifies this, Repr
      ensures Valid() && fresh(Repr - old(Repr))
      ensures forall k :: Lookup(k) == None
      ensures forall i :: 0 <= i < |segments| ==> segments[i].count == 0
      ensures forall i :: 0 <= i < |segments| && old(segments[i].count) != 0 ==>
        fresh(segments[i].references) && segments[i].references.Length == segments[i].initialSize
    {
      var i := 0;
      while i < |segments|
        invariant 0 <= i <= |segments|
        invariant Valid() && fresh(Repr - old(Repr))
        invariant forall j, k :: 0 <= j < i ==> segments[j].Lookup(k) == None
        invariant forall j :: 0 <= j < i ==> segments[j].count == 0
        invariant forall j :: 0 <= j < i && old(segments[j].count) != 0 ==>
          fresh(segments[j].references) && segments[j].references.Length == segments[j].initialSize
        invariant forall j :: i <= j < |segments| ==> segments[j].count == old(segments[j].count)
      {
        ClearSegment(i);
        i := i + 1;
      }
    }

    /** One step of clear: segment `s` is cleared, the others keep their
        arrays, counts and contents. */
    method ClearSegment(s: nat)
      requires Valid() && s < |segments|
      modifies this, Repr
      ensures Valid() && fresh(Repr - old(Repr))
      ensures segments[s].count == 0 && forall k :: segments[s].Lookup(k) == None
      ensures old(segments[s].count) != 0 ==>
        fresh(segments[s].references) && segments[s].references.Length == segments[s].initialSize
      ensures old(segments[s].count) == 0 ==> segments[s].references == old(segments[s].references)
      ensures forall j :: 0 <= j < |segments| && j != s ==>
        segments[j].count == old(segments[j].count) && segments[j].references == old(segments[j].references)
      ensures forall j, k :: 0 <= j < |segments| && j != s ==> segments[j].Lookup(k) == old(segments[j].Lookup(k))
    {
      segments[s].Clear();
      Repr := Repr + {segments[s].references};
      OnlySegmentChanged(s);
    }

    /** purgeUnreferencedEntries: restructures every segment without resizing,
        so each count is again its number of live entries. */
    method PurgeUnreferencedEntries()
      requires Valid()
      modifies Repr
      ensures Valid() && Repr == old(Repr)
      ensures forall k :: Lookup(k) == old(Lookup(k))
      ensures forall i :: 0 <= i < |segments| ==>
        segments[i].queue == [] && segments[i].count == |segments[i].entries|
    {
      var i := 0;
      while i < |segments|
        invariant 0 <= i <= |segments|
        invariant Valid() && Repr == old(Repr)
        invariant forall j :: 0 <= j < |segments| ==> segments[j].references == old(segments[j].references)
        invariant forall j, k :: 0 <= j < |segments| ==> segments[j].Lookup(k) == old(segments[j].Lookup(k))
        invariant forall j :: 0 <= j < i ==> segments[j].queue == [] && segments[j].count == |segments[j].entries|
      {
        label Before:
        segments[i].RestructureIfNecessary(false);
        OnlySegmentChanged@Before(i);
        i := i + 1;
      }
      forall k ensures Lookup(k) == old(Lookup(k)) {
        assert segments[SegmentFor(k)].Lookup(k) == old(segments[SegmentFor(k)].Lookup(k));
      }
    }
  }

  /** Fresh segments as the constructor makes them: valid, each sized for
      the capacity, rounded up to a power of two, and holding no key. */
  ghost predicate EmptySegments<K(!new), V>(segs: seq<Segment<K, V>>, repr: set<object>, hashCode: K -> bv32, capacity: int)
    reads repr
  {
    && SegmentsValid(segs, repr, hashCode)
    && (forall j :: 0 <= j < |segs| ==>
          var c := Min(capacity, MaximumSegmentSize);
          segs[j].initialSize >= c && (segs[j].initialSize > 1 ==> segs[j].initialSize / 2 < c))
    && (forall j, k :: 0 <= j < |segs| ==> segs[j].Lookup(k) == None)
  }

  /** A capacity of at most 1 gives every segment a single bucket. */
  lemma SmallCapacitySegments<K(!new), V>(segs: seq<Segment<K, V>>, repr: set<object>, hashCode: K -> bv32, capacity: int)
    requires EmptySegments(segs, repr, hashCode, capacity)
    ensures capacity <= 1 ==> forall j :: 0 <= j < |segs| ==> segs[j].initialSize == 1
  {
    if capacity <= 1 {
      forall j | 0 <= j < |segs| ensures segs[j].initialSize == 1 {
        assert segs[j].Valid();
        assert segs[j].initialSize >= 1;
      }
    }
  }

  /** Appending a fresh segment whose array is outside `repr` keeps them so. */
  lemma EmptySegmentsSnoc<K(!new), V>(segs: seq<Segment<K, V>>, repr: set<object>, hashCode: K -> bv32, capacity: int,
                                      s: Segment<K, V>)
    requires EmptySegments(segs, repr, hashCode, capacity)
    requires s !in repr && s.references !in repr && s.Valid()
    requires forall k :: s.hashOf(k) == KeyHash(hashCode, k)
    requires s.initialSize >= Min(capacity, MaximumSegmentSize)
    requires s.initialSize > 1 ==> s.initialSize / 2 < Min(capacity, MaximumSegmentSize)
    requires forall k :: s.Lookup(k) == None
    ensures EmptySegments(segs + [s], repr + {s, s.references}, hashCode, capacity)
  {
    var segs', repr' := segs + [s], repr + {s, s.references};
    forall i | 0 <= i < |segs'| ensures segs'[i].Valid() {
      if i < |segs| {
        assert segs'[i] == segs[i];
      }
    }
    assert SegmentsValid(segs', repr', hashCode);
    forall j, k | 0 <= j < |segs'| ensures segs'[j].Lookup(k) == None {
      if j < |segs| {
        assert segs'[j] == segs[j];
      }
    }
  }

  /** What calculateShift's result means for the number of segments. */
  lemma SegmentCountBounds(level: int, s: nat)
    requires Pow2(s) >= Min(level, MaximumConcurrencyLevel)
    requires s > 0 ==> Pow2(s - 1) < Min(level, MaximumConcurrencyLevel)
    ensures s <= 16 && Pow2(s) <= MaximumConcurrencyLevel
    ensures Pow2(s) > 1 ==> Pow2(s) / 2 < Min(level, MaximumConcurrencyLevel)
  {
    Pow2Values();
    ShiftAtMostBound(level, s, 16);
  }

  /** The constructor's loop: `size` fresh, empty segments of the given
      capacity, each with its own array. */
  method MakeSegments<K(==,!new), V(==)>(size: nat, capacity: int, hashCode: K -> bv32, loadNum: nat, loadDen: nat)
    returns (segs: seq<Segment<K, V>>, ghost repr: set<object>)
    requires loadNum > 0 && loadDen > 0
    ensures |segs| == size && fresh(repr) && EmptySegments(segs, repr, hashCode, capacity)
  {
    var hashOf := k => KeyHash(hashCode, k);
    segs := [];
    repr := {};
    var i := 0;
    while i < size
      invariant 0 <= i <= size && |segs| == i
      invariant fresh(repr) && EmptySegments(segs, repr, hashCode, capacity)
    {
      var segment := new Segment(capacity, hashOf, loadNum, loadDen);
      EmptySegmentsSnoc(segs, repr, hashCode, capacity, segment);
      segs := segs + [segment];
      repr := repr + {segment, segment.references};
      i := i + 1;
    }
  }

  /** The checked constructor: an argument error instead of the exception. */
  method NewMap<K(==,!new), V(==)>(initialCapacity: int, loadNum: nat, loadDen: nat, concurrencyLevel: int,
                                  referenceType: ReferenceType, hashCode: K -> bv32)
    returns (r: Result<ConcurrentReferenceHashMap<K, V>, ArgumentError>)
    requires -0x8000_0000 <= initialCapacity < 0x8000_0000 && loadDen > 0
    ensures r.Err? <==> initialCapacity < 0 || loadNum == 0 || concurrencyLevel <= 0
    ensures r.Err? ==> r.error == (if initialCapacity < 0 then NegativeCapacity
                                   else if loadNum == 0 then NonPositiveLoadFactor
                                   else NonPositiveConcurrency)
    ensures r.Ok? ==> r.value.Valid() && fresh(r.value.Repr) && forall k :: r.value.Lookup(k) == None
  {
    if initialCapacity < 0 {
      return Err(NegativeCapacity);
    }
    if loadNum == 0 {
      return Err(NonPositiveLoadFactor);
    }
    if concurrencyLevel <= 0 {
      return Err(NonPositiveConcurrency);
    }
    var m := new ConcurrentReferenceHashMap(initialCapacity, loadNum, loadDen, concurrencyLevel, referenceType, hashCode);
    return Ok(m);
  }
}
