/** The map's entry iterator and EntrySet.contains. The iterator walks the
    segments in order, the buckets of each segment's array in order and each
    chain from its head, returning the entry of every reference that still
    resolves. */
module EntryIterators {
  import opened Wrappers
  import opened Hashing
  import opened Chains
  import opened Segments
  import opened RefMaps

  /** NoSuchElementException from next(), IllegalStateException from remove(). */
  datatype IteratorError = NoSuchElement | IllegalState

  /** A reference together with the segment whose entries it resolves in. */
  datatype Visit = Visit(segment: nat, ref: Ref)

  function Tagged(s: nat, refs: seq<Ref>): seq<Visit>
  {
    if refs == [] then [] else [Visit(s, refs[0])] + Tagged(s, refs[1..])
  }

  lemma TaggedCons(s: nat, r: Ref, rest: seq<Ref>)
    ensures Tagged(s, [r] + rest) == [Visit(s, r)] + Tagged(s, rest)
  {
    assert ([r] + rest)[1..] == rest;
  }

  /** What the iterator sees of a segment: its chains and the entries they resolve to. */
  datatype SegmentView<K, V> = SegmentView(chains: seq<seq<Ref>>, entries: map<nat, Entry<K, V>>)

  /** The segments of a map, as values. */
  ghost function Views<K(!new), V>(m: ConcurrentReferenceHashMap<K, V>): (r: seq<SegmentView<K, V>>)
    reads m, m.Repr
    requires m.Framed()
    ensures |r| == |m.segments|
    ensures forall i :: 0 <= i < |r| ==> r[i] == SegmentView(m.segments[i].references[..], m.segments[i].entries)
  {
    seq(|m.segments|, i requires 0 <= i < |m.segments| && m.segments[i] in m.Repr && m.segments[i].references in m.Repr
      reads m, m.Repr =>
      SegmentView(m.segments[i].references[..], m.segments[i].entries))
  }

  /** Every reference of the segments from `j` on, in iteration order. */
  function VisitsFrom<K, V>(views: seq<SegmentView<K, V>>, j: nat): seq<Visit>
    decreases |views| - j
  {
    if j >= |views| then []
    else Tagged(j, Flatten(views[j].chains)) + VisitsFrom(views, j + 1)
  }

  /** The entry a reference of segment `s` resolves to, if it still does. */
  function Live<K, V>(views: seq<SegmentView<K, V>>, s: nat, r: Ref): seq<Entry<K, V>>
  {
    if s < |views| && r.id in views[s].entries then [views[s].entries[r.id]] else []
  }

  /** The entries the visited references resolve to, in order. */
  function LiveIn<K, V>(views: seq<SegmentView<K, V>>, vs: seq<Visit>): seq<Entry<K, V>>
  {
    if vs == [] then [] else Live(views, vs[0].segment, vs[0].ref) + LiveIn(views, vs[1..])
  }

  /** The entries of all segments, in the order the iterator returns them. */
  ghost function Contents<K(!new), V>(m: ConcurrentReferenceHashMap<K, V>): seq<Entry<K, V>>
    reads m, m.Repr
    requires m.Framed()
  {
    LiveIn(Views(m), VisitsFrom(Views(m), 0))
  }

  /** Where an iterator stands: `segmentIndex` is one past the segment whose
      array `references` is, `referenceIndex` the next bucket of that array,
      `reference` the reference last taken and `following` the rest of its
      chain. `references` is none only after the last segment. */
  predicate PositionedAt<K, V>(views: seq<SegmentView<K, V>>, arrays: seq<array<seq<Ref>>>,
    segmentIndex: int, referenceIndex: int, references: Option<array<seq<Ref>>>,
    reference: Option<Ref>, following: seq<Ref>)
  {
    && 0 <= segmentIndex <= |views| && |arrays| == |views|
    && (references.None? ==> segmentIndex == |views| && reference.None?)
    && (references.Some? ==>
          && 1 <= segmentIndex && 0 <= referenceIndex <= |views[segmentIndex - 1].chains|
          && references.value == arrays[segmentIndex - 1])
    && (reference.None? ==> following == [])
  }

  /** The references an iterator standing there has not visited yet, in the
      order it visits them: the rest of the current chain, then the chain of
      each bucket not yet entered, then the next segment's array. */
  function CursorAt<K, V>(views: seq<SegmentView<K, V>>, segmentIndex: int, referenceIndex: int,
    inSegment: bool, following: seq<Ref>): seq<Visit>
    requires 0 <= segmentIndex <= |views|
    requires inSegment ==> 1 <= segmentIndex && 0 <= referenceIndex <= |views[segmentIndex - 1].chains|
    decreases |views| - segmentIndex,
      (if inSegment then |views[segmentIndex - 1].chains| - referenceIndex else 0), |following|
  {
    if !inSegment then []
    else if following != [] then
      [Visit(segmentIndex - 1, following[0])] + CursorAt(views, segmentIndex, referenceIndex, true, following[1..])
    else if referenceIndex < |views[segmentIndex - 1].chains| then
      CursorAt(views, segmentIndex, referenceIndex + 1, true, views[segmentIndex - 1].chains[referenceIndex])
    else if segmentIndex < |views| then
      CursorAt(views, segmentIndex + 1, 0, true, [])
    else []
  }

  /** The order of the steps is the order of the segments, of the buckets of
      each array and of each chain from its head. */
  lemma {:induction false} CursorOrder<K, V>(views: seq<SegmentView<K, V>>, segmentIndex: int,
    referenceIndex: int, following: seq<Ref>)
    requires 1 <= segmentIndex <= |views| && 0 <= referenceIndex <= |views[segmentIndex - 1].chains|
    ensures CursorAt(views, segmentIndex, referenceIndex, true, following)
      == Tagged(segmentIndex - 1, following + Flatten(views[segmentIndex - 1].chains[referenceIndex..]))
        + VisitsFrom(views, segmentIndex)
    decreases |views| - segmentIndex, |views[segmentIndex - 1].chains| - referenceIndex, |following|
  {
    var chains := views[segmentIndex - 1].chains;
    if following != [] {
      CursorOrder(views, segmentIndex, referenceIndex, following[1..]);
      var rest := Flatten(chains[referenceIndex..]);
      assert following + rest == [following[0]] + (following[1..] + rest);
      TaggedCons(segmentIndex - 1, following[0], following[1..] + rest);
    } else if referenceIndex < |chains| {
      CursorOrder(views, segmentIndex, referenceIndex + 1, chains[referenceIndex]);
      SlotStep(chains, referenceIndex);
      assert following + Flatten(chains[referenceIndex..])
        == chains[referenceIndex] + Flatten(chains[referenceIndex + 1..]);
    } else {
      assert chains[referenceIndex..] == [];
      assert following + Flatten(chains[referenceIndex..]) == [];
      if segmentIndex < |views| {
        CursorOrder(views, segmentIndex + 1, 0, []);
        var next := views[segmentIndex].chains;
        assert next[0..] == next;
        assert [] + Flatten(next[0..]) == Flatten(next);
      }
    }
  }

  /** The entries an iterator standing there has still to return, step by
      step as CursorAt. */
  function LiveAt<K, V>(views: seq<SegmentView<K, V>>, segmentIndex: int, referenceIndex: int,
    inSegment: bool, following: seq<Ref>): seq<Entry<K, V>>
    requires 0 <= segmentIndex <= |views|
    requires inSegment ==> 1 <= segmentIndex && 0 <= referenceIndex <= |views[segmentIndex - 1].chains|
    decreases |views| - segmentIndex,
      (if inSegment then |views[segmentIndex - 1].chains| - referenceIndex else 0), |following|
  {
    if !inSegment then []
    else if following != [] then
      Live(views, segmentIndex - 1, following[0]) + LiveAt(views, segmentIndex, referenceIndex, true, following[1..])
    else if referenceIndex < |views[segmentIndex - 1].chains| then
      LiveAt(views, segmentIndex, referenceIndex + 1, true, views[segmentIndex - 1].chains[referenceIndex])
    else if segmentIndex < |views| then
      LiveAt(views, segmentIndex + 1, 0, true, [])
    else []
  }

  /** Standing at the first bucket of the first segment, an iterator has
      every entry still to return. */
  lemma StartCovers<K, V>(views: seq<SegmentView<K, V>>)
    ensures LiveAt(views, if |views| > 0 then 1 else 0, 0, |views| > 0, []) == LiveIn(views, VisitsFrom(views, 0))
  {
    LiveAtCursor(views, if |views| > 0 then 1 else 0, 0, |views| > 0, []);
    if |views| > 0 {
      CursorOrder(views, 1, 0, []);
      assert views[0].chains[0..] == views[0].chains;
      assert [] + Flatten(views[0].chains) == Flatten(views[0].chains);
    }
  }

  /** Those are the entries the unvisited references resolve to. */
  lemma {:induction false} LiveAtCursor<K, V>(views: seq<SegmentView<K, V>>, segmentIndex: int,
    referenceIndex: int, inSegment: bool, following: seq<Ref>)
    requires 0 <= segmentIndex <= |views|
    requires inSegment ==> 1 <= segmentIndex && 0 <= referenceIndex <= |views[segmentIndex - 1].chains|
    ensures LiveAt(views, segmentIndex, referenceIndex, inSegment, following)
      == LiveIn(views, CursorAt(views, segmentIndex, referenceIndex, inSegment, following))
    decreases |views| - segmentIndex,
      (if inSegment then |views[segmentIndex - 1].chains| - referenceIndex else 0), |following|
  {
    if !inSegment {
    } else if following != [] {
      LiveAtCursor(views, segmentIndex, referenceIndex, true, following[1..]);
      var rest := CursorAt(views, segmentIndex, referenceIndex, true, following[1..]);
      assert ([Visit(segmentIndex - 1, following[0])] + rest)[1..] == rest;
    } else if referenceIndex < |views[segmentIndex - 1].chains| {
      LiveAtCursor(views, segmentIndex, referenceIndex + 1, true, views[segmentIndex - 1].chains[referenceIndex]);
    } else if segmentIndex < |views| {
      LiveAtCursor(views, segmentIndex + 1, 0, true, []);
    }
  }

  class EntryIterator<K(==,!new), V(==)> {
    /** The enclosing map (ConcurrentReferenceHashMap.this). */
    const hashMap: ConcurrentReferenceHashMap<K, V>
    /** The map's segments as the iterator found them; iteration is specified against them. */
    ghost const views: seq<SegmentView<K, V>>
    /** The segments' arrays as the iterator found them. */
    ghost const arrays: seq<array<seq<Ref>>>
    var segmentIndex: int
    var referenceIndex: int
    var references: Option<array<seq<Ref>>>
    var reference: Option<Ref>
    /** The references after `reference` in its chain (its getNext() links). */
    var following: seq<Ref>
    var next: Option<Entry<K, V>>
    var last: Option<Entry<K, V>>

    ghost predicate Positioned()
      reads this`segmentIndex, this`referenceIndex, this`references, this`reference, this`following
    {
      PositionedAt(views, arrays, segmentIndex, referenceIndex, references, reference, following)
    }

    /** The map still is as the iterator found it. */
    ghost predicate Tracked()
      reads hashMap, hashMap.Repr
    {
      && hashMap.Framed() && this !in hashMap.Repr
      && |arrays| == |views| == |hashMap.segments|
      && forall i :: 0 <= i < |arrays| ==>
           && arrays[i] == hashMap.segments[i].references
           && arrays[i][..] == views[i].chains && hashMap.segments[i].entries == views[i].entries
    }

    /** Changing only the iterator keeps the map as it was found. */
    twostate lemma KeepsTracked()
      requires old(Tracked()) && unchanged(hashMap) && unchanged(old(hashMap.Repr))
      ensures Tracked()
    {
    }

    ghost predicate Valid()
      reads this`segmentIndex, this`referenceIndex, this`references, this`reference, this`following
      reads hashMap, hashMap.Repr
    {
      Positioned() && Tracked()
    }

    ghost function Cursor(): seq<Visit>
      reads this`segmentIndex, this`referenceIndex, this`references, this`reference, this`following
      requires Positioned()
    {
      CursorAt(views, segmentIndex, referenceIndex, references.Some?, following)
    }

    /** The entries still to be returned: the one already fetched, then the
        live entries of the references not yet visited. */
    ghost function Remaining(): seq<Entry<K, V>>
      reads this`segmentIndex, this`referenceIndex, this`references, this`reference, this`following, this`next
      requires Positioned()
    {
      (if next.Some? then [next.value] else []) + LiveAt(views, segmentIndex, referenceIndex, references.Some?, following)
    }

    /** A new iterator is positioned on the first segment and returns the
        whole contents of the map (by ContentsAreLookup, each of its entries
        once). */
    constructor (hashMap: ConcurrentReferenceHashMap<K, V>)
      requires hashMap.Framed()
      ensures Valid() && this.hashMap == hashMap
      ensures next == None && last == None
      ensures Remaining() == Contents(hashMap)
    {
      this.hashMap := hashMap;
      views := Views(hashMap);
      arrays := seq(|hashMap.segments|, i requires 0 <= i < |hashMap.segments| reads hashMap, hashMap.segments =>
        hashMap.segments[i].references);
      segmentIndex := 0;
      referenceIndex := 0;
      references := None;
      reference := None;
      following := [];
      next := None;
      last := None;
      new;
      assert Tracked();
      label Built:
      MoveToNextSegment();
      KeepsTracked@Built();
      assert views == Views(hashMap);
      StartCovers(views);
    }

    /** The array of segment `index` and the index after it, or none after
        the last segment. */
    method SegmentAfter(index: int) returns (refs: Option<array<seq<Ref>>>, nextIndex: int)
      requires Tracked() && 0 <= index <= |views|
      ensures index < |views| ==> refs == Some(arrays[index]) && nextIndex == index + 1
      ensures index == |views| ==> refs == None && nextIndex == index
    {
      refs := None;
      nextIndex := index;
      if index < |hashMap.segments| {
        refs := Some(hashMap.segments[index].references);
        nextIndex := index + 1;
      }
    }

    /** moveToNextSegment: the array of the next segment, or none after the last. */
    method MoveToNextSegment()
      requires Tracked() && 0 <= segmentIndex <= |views|
      modifies this`reference, this`following, this`references, this`segmentIndex
      ensures reference == None && following == []
      ensures old(segmentIndex) < |views| ==>
        references == Some(arrays[old(segmentIndex)]) && segmentIndex == old(segmentIndex) + 1
      ensures old(segmentIndex) == |views| ==> references == None && segmentIndex == old(segmentIndex)
    {
      reference := None;
      following := [];
      references, segmentIndex := SegmentAfter(segmentIndex);
    }

    /** moveToNextReference: the next reference of the iteration order, or
        none when every reference was visited. The cursor is worked on in
        locals and stored back at the end. */
    method MoveToNextReference()
      requires Valid()
      modifies this`reference, this`following, this`references, this`segmentIndex, this`referenceIndex
      ensures Valid()
      ensures reference.Some? ==> old(Cursor()) == [Visit(segmentIndex - 1, reference.value)] + Cursor()
      ensures reference.None? ==> old(Cursor()) == [] && Cursor() == [] && references.None?
    {
      segmentIndex, referenceIndex, references, reference, following :=
        Advance(segmentIndex, referenceIndex, references, reference, following);
      KeepsTracked();
    }

    /** The body of moveToNextReference on the cursor's values: the next link
        of the current chain, or else the head of the next non-empty bucket
        (Seek). */
    method Advance(si0: int, ri0: int, refs0: Option<array<seq<Ref>>>, ref0: Option<Ref>, fol0: seq<Ref>)
      returns (si: int, ri: int, refs: Option<array<seq<Ref>>>, ref: Option<Ref>, fol: seq<Ref>)
      requires Tracked() && PositionedAt(views, arrays, si0, ri0, refs0, ref0, fol0)
      ensures PositionedAt(views, arrays, si, ri, refs, ref, fol)
      ensures ref.Some? ==>
        CursorAt(views, si0, ri0, refs0.Some?, fol0) == [Visit(si - 1, ref.value)] + CursorAt(views, si, ri, refs.Some?, fol)
      ensures ref.Some? ==>
        LiveAt(views, si0, ri0, refs0.Some?, fol0) == Live(views, si - 1, ref.value) + LiveAt(views, si, ri, refs.Some?, fol)
      ensures ref.None? ==>
        CursorAt(views, si0, ri0, refs0.Some?, fol0) == [] && LiveAt(views, si0, ri0, refs0.Some?, fol0) == []
        && refs.None?
    {
      if ref0.Some? && fol0 != [] {
        return si0, ri0, refs0, Some(fol0[0]), fol0[1..];
      }
      si, ri, refs, ref, fol := Seek(si0, ri0, refs0);
    }

    /** The loop of moveToNextReference: it skips empty buckets and exhausted
        arrays until it takes the head of a chain or runs out of segments. */
    method Seek(si0: int, ri0: int, refs0: Option<array<seq<Ref>>>)
      returns (si: int, ri: int, refs: Option<array<seq<Ref>>>, ref: Option<Ref>, fol: seq<Ref>)
      requires Tracked() && PositionedAt(views, arrays, si0, ri0, refs0, None, [])
      ensures PositionedAt(views, arrays, si, ri, refs, ref, fol)
      ensures ref.Some? ==>
        CursorAt(views, si0, ri0, refs0.Some?, []) == [Visit(si - 1, ref.value)] + CursorAt(views, si, ri, refs.Some?, fol)
      ensures ref.Some? ==>
        LiveAt(views, si0, ri0, refs0.Some?, []) == Live(views, si - 1, ref.value) + LiveAt(views, si, ri, refs.Some?, fol)
      ensures ref.None? ==>
        CursorAt(views, si0, ri0, refs0.Some?, []) == [] && LiveAt(views, si0, ri0, refs0.Some?, []) == []
        && refs.None?
    {
      si, ri, refs, ref, fol := si0, ri0, refs0, None, [];
      while ref.None? && refs.Some?
        invariant PositionedAt(views, arrays, si, ri, refs, ref, fol)
        invariant ref.None? ==> CursorAt(views, si, ri, refs.Some?, fol) == CursorAt(views, si0, ri0, refs0.Some?, [])
        invariant ref.None? ==> LiveAt(views, si, ri, refs.Some?, fol) == LiveAt(views, si0, ri0, refs0.Some?, [])
        invariant ref.Some? ==>
          CursorAt(views, si0, ri0, refs0.Some?, []) == [Visit(si - 1, ref.value)] + CursorAt(views, si, ri, refs.Some?, fol)
        invariant ref.Some? ==>
          LiveAt(views, si0, ri0, refs0.Some?, []) == Live(views, si - 1, ref.value) + LiveAt(views, si, ri, refs.Some?, fol)
        decreases |views| - si, (if refs.Some? then 1 else 0),
          (if refs.Some? then |views[si - 1].chains| - ri else 0)
      {
        var arr := refs.value;
        assert arr[..] == views[si - 1].chains;
        if ri >= arr.Length {
          refs, si := SegmentAfter(si);
          ri := 0;
        } else {
          var chain := arr[ri];
          ri := ri + 1;
          if chain != [] {
            ref := Some(chain[0]);
            fol := chain[1..];
          }
        }
      }
    }

    /** getNextIfNecessary: fetches the entry of the next live reference
        unless one is already fetched; the remaining entries stay the same. */
    method GetNextIfNecessary()
      requires Valid()
      modifies this`reference, this`following, this`references, this`segmentIndex, this`referenceIndex, this`next
      ensures Valid() && Remaining() == old(Remaining())
      ensures next.None? ==> Remaining() == []
    {
      segmentIndex, referenceIndex, references, reference, following, next :=
        Fetch(segmentIndex, referenceIndex, references, reference, following, next);
      KeepsTracked();
    }

    /** The loop of getNextIfNecessary on the cursor's values: each round is
        the body of moveToNextReference followed by Reference.get(). */
    method Fetch(si0: int, ri0: int, refs0: Option<array<seq<Ref>>>, ref0: Option<Ref>, fol0: seq<Ref>,
      next0: Option<Entry<K, V>>)
      returns (si: int, ri: int, refs: Option<array<seq<Ref>>>, ref: Option<Ref>, fol: seq<Ref>,
        nxt: Option<Entry<K, V>>)
      requires Tracked() && PositionedAt(views, arrays, si0, ri0, refs0, ref0, fol0)
      ensures PositionedAt(views, arrays, si, ri, refs, ref, fol)
      ensures (if nxt.Some? then [nxt.value] else []) + LiveAt(views, si, ri, refs.Some?, fol)
        == (if next0.Some? then [next0.value] else []) + LiveAt(views, si0, ri0, refs0.Some?, fol0)
      ensures nxt.None? ==> refs.None?
    {
      si, ri, refs, ref, fol, nxt := si0, ri0, refs0, ref0, fol0, next0;
      while nxt.None?
        invariant PositionedAt(views, arrays, si, ri, refs, ref, fol)
        invariant (if nxt.Some? then [nxt.value] else []) + LiveAt(views, si, ri, refs.Some?, fol)
          == (if next0.Some? then [next0.value] else []) + LiveAt(views, si0, ri0, refs0.Some?, fol0)
        decreases |CursorAt(views, si, ri, refs.Some?, fol)|
      {
        si, ri, refs, ref, fol := Advance(si, ri, refs, ref, fol);
        if ref.None? {
          return;
        }
        nxt := hashMap.segments[si - 1].Resolve(ref.value);
      }
    }

    /** hasNext: true exactly when an entry remains. */
    method HasNext() returns (b: bool)
      requires Valid()
      modifies this`reference, this`following, this`references, this`segmentIndex, this`referenceIndex, this`next
      ensures Valid() && Remaining() == old(Remaining())
      ensures b <==> Remaining() != []
    {
      GetNextIfNecessary();
      b := next.Some?;
    }

    /** next: the first remaining entry, which becomes `last`; an error when
        none remains. */
    method Next() returns (r: Result<Entry<K, V>, IteratorError>)
      requires Valid()
      modifies this
      ensures Valid()
      ensures old(Remaining()) == [] ==> r == Err(NoSuchElement) && last == old(last) && Remaining() == []
      ensures old(Remaining()) != [] ==>
        && r == Ok(old(Remaining())[0]) && last == Some(r.value)
        && Remaining() == old(Remaining())[1..]
    {
      GetNextIfNecessary();
      if next.None? {
        return Err(NoSuchElement);
      }
      ghost var rest := LiveAt(views, segmentIndex, referenceIndex, references.Some?, following);
      assert Remaining() == [next.value] + rest;
      last := next;
      next := None;
      r := Ok(last.value);
      assert Remaining() == rest;
    }

    /** remove, as written: removes the key of `last` from the map, an error
        when nothing was returned yet; `last` is left set, so a second call
        removes the same key again instead of failing. */
    method Remove() returns (r: Result<(), IteratorError>)
      requires hashMap.Valid() && this !in hashMap.Repr
      modifies hashMap, hashMap.Repr
      ensures r.Err? <==> last.None?
      ensures r.Err? ==> r.error == IllegalState && unchanged(hashMap) && unchanged(old(hashMap.Repr))
      ensures last == old(last)
      ensures r.Ok? ==>
        && hashMap.Valid() && fresh(hashMap.Repr - old(hashMap.Repr)) && hashMap.Lookup(last.value.key) == None
        && forall k :: k != last.value.key ==> hashMap.Lookup(k) == old(hashMap.Lookup(k))
    {
      if last.None? {
        return Err(IllegalState);
      }
      var _ := hashMap.Remove(last.value.key);
      r := Ok(());
    }

    /** remove as the Iterator contract has it: also forgets `last`, so it
        may not be called twice for one next. */
    method RemoveOnce() returns (r: Result<(), IteratorError>)
      requires hashMap.Valid() && this !in hashMap.Repr
      modifies this, hashMap, hashMap.Repr
      ensures r.Err? <==> old(last).None?
      ensures r.Err? ==> r.error == IllegalState && unchanged(hashMap) && unchanged(old(hashMap.Repr))
      ensures last == None
      ensures r.Ok? ==>
        && hashMap.Valid() && fresh(hashMap.Repr - old(hashMap.Repr)) && hashMap.Lookup(old(last).value.key) == None
        && forall k :: k != old(last).value.key ==> hashMap.Lookup(k) == old(hashMap.Lookup(k))
    {
      if last.None? {
        return Err(IllegalState);
      }
      var _ := hashMap.Remove(last.value.key);
      last := None;
      r := Ok(());
    }
  }

  /** Two calls of remove after one next, as written: both succeed, the
      second removing the same key again. */
  method RemoveTwice<K(==,!new), V(==)>(it: EntryIterator<K, V>)
    returns (first: Result<(), IteratorError>, second: Result<(), IteratorError>)
    requires it.hashMap.Valid() && it !in it.hashMap.Repr && it.last.Some?
    modifies it.hashMap, it.hashMap.Repr
    ensures first.Ok? && second.Ok?
  {
    first := it.Remove();
    second := it.Remove();
  }

  /** The same two calls of the corrected remove: the second is refused. */
  method RemoveOnceTwice<K(==,!new), V(==)>(it: EntryIterator<K, V>)
    returns (first: Result<(), IteratorError>, second: Result<(), IteratorError>)
    requires it.hashMap.Valid() && it !in it.hashMap.Repr && it.last.Some?
    modifies it, it.hashMap, it.hashMap.Repr
    ensures first.Ok? && second == Err(IllegalState)
  {
    first := it.RemoveOnce();
    second := it.RemoveOnce();
  }

  /** EntrySet.contains, as written: once a live entry is found for the key,
      its value is compared with itself, so the value asked about plays no
      part. `found` is the value of the entry found for the key. */
  function EntryContainsAsWritten<V(==)>(found: Option<V>, value: V): (b: bool)
    ensures b <==> found.Some?
  {
    found.Some? && NullSafeEquals(found, found)
  }

  /** EntrySet.contains as the Set contract has it: the key maps to that value. */
  function EntryContains<V(==)>(found: Option<V>, value: V): (b: bool)
    ensures b <==> found == Some(value)
  {
    found.Some? && NullSafeEquals(found, Some(value))
  }

  /** An entry whose key is present with another value is reported as
      contained by the code as written, and not by the corrected test. */
  lemma EntryContainsIgnoresValue()
    ensures EntryContainsAsWritten(Some(1), 2) && !EntryContains(Some(1), 2)
  {
  }

  /** getReference(key, NEVER) followed by Reference.get() and getValue():
      the key's value, found without restructuring anything. */
  method FoundValue<K(==,!new), V(==)>(m: ConcurrentReferenceHashMap<K, V>, key: K) returns (found: Option<V>)
    requires m.Valid()
    modifies m.Repr
    ensures m.Valid() && unchanged(old(m.Repr)) && found == m.Lookup(key)
  {
    var segment := m.segments[m.SegmentFor(key)];
    var ref := segment.GetReference(key, KeyHash(m.hashCode, key), Never);
    var other := if ref.Some? then segment.Resolve(ref.value) else None;
    found := if other.Some? then Some(other.value.value) else None;
  }

  /** EntrySet.contains, as written; `o` is none when the object is not a
      Map.Entry. */
  method EntrySetContains<K(==,!new), V(==)>(m: ConcurrentReferenceHashMap<K, V>, o: Option<Entry<K, V>>)
    returns (b: bool)
    requires m.Valid()
    modifies m.Repr
    ensures m.Valid() && unchanged(old(m.Repr))
    ensures b <==> o.Some? && m.Lookup(o.value.key).Some?
  {
    if o.None? {
      return false;
    }
    var found := FoundValue(m, o.value.key);
    b := EntryContainsAsWritten(found, o.value.value);
  }

  /** EntrySet.contains, corrected: the entry's value must be the one asked about. */
  method EntrySetContainsIntended<K(==,!new), V(==)>(m: ConcurrentReferenceHashMap<K, V>, o: Option<Entry<K, V>>)
    returns (b: bool)
    requires m.Valid()
    modifies m.Repr
    ensures m.Valid() && unchanged(old(m.Repr))
    ensures b <==> o.Some? && m.Lookup(o.value.key) == Some(o.value.value)
  {
    if o.None? {
      return false;
    }
    var found := FoundValue(m, o.value.key);
    b := EntryContains(found, o.value.value);
  }

  /** EntrySet.remove: removes the entry only while the key still maps to
      the entry's value; anything that is not a Map.Entry is not removed. */
  method EntrySetRemove<K(==,!new), V(==)>(m: ConcurrentReferenceHashMap<K, V>, o: Option<Entry<K, V>>)
    returns (removed: bool)
    requires m.Valid()
    modifies m, m.Repr
    ensures m.Valid() && fresh(m.Repr - old(m.Repr))
    ensures removed <==> o.Some? && old(m.Lookup(o.value.key)) == Some(o.value.value)
    ensures o.None? ==> unchanged(m) && unchanged(old(m.Repr))
    ensures o.Some? ==> m.Lookup(o.value.key) == if removed then None else old(m.Lookup(o.value.key))
    ensures o.Some? ==> forall k :: k != o.value.key ==> m.Lookup(k) == old(m.Lookup(k))
  {
    if o.None? {
      return false;
    }
    removed := m.RemoveIf(o.value.key, o.value.value);
  }

  /** Entering bucket `i` of an array: its chain comes before the later buckets. */
  lemma SlotStep(chains: seq<seq<Ref>>, i: nat)
    requires i < |chains|
    ensures Flatten(chains[i..]) == chains[i] + Flatten(chains[i + 1..])
  {
    FlattenFront(chains[i..]);
    assert chains[i..][1..] == chains[i + 1..];
  }

  lemma {:induction false} FlattenFront(chains: seq<seq<Ref>>)
    requires chains != []
    ensures Flatten(chains) == chains[0] + Flatten(chains[1..])
  {
    if |chains| > 1 {
      var init := chains[..|chains| - 1];
      FlattenFront(init);
      assert init[1..] == chains[1..][..|chains[1..]| - 1];
    } else {
      assert chains[..0] == [];
      assert chains[1..] == [];
    }
  }

  // ---- The contents are the map's entries ----

  /** Visit `v` resolves to entry `e`. */
  predicate Resolves<K(==), V(==)>(views: seq<SegmentView<K, V>>, v: Visit, e: Entry<K, V>)
  {
    v.segment < |views| && v.ref.id in views[v.segment].entries && views[v.segment].entries[v.ref.id] == e
  }

  lemma {:induction false} LiveInMembers<K, V>(views: seq<SegmentView<K, V>>, vs: seq<Visit>, e: Entry<K, V>)
    ensures e in LiveIn(views, vs) <==> exists i :: 0 <= i < |vs| && Resolves(views, vs[i], e)
    decreases |vs|
  {
    if vs != [] {
      LiveInMembers(views, vs[1..], e);
      if exists i :: 0 <= i < |vs| && Resolves(views, vs[i], e) {
        var i :| 0 <= i < |vs| && Resolves(views, vs[i], e);
        if i > 0 {
          assert vs[1..][i - 1] == vs[i];
        }
      }
      if exists i :: 0 <= i < |vs[1..]| && Resolves(views, vs[1..][i], e) {
        var i :| 0 <= i < |vs[1..]| && Resolves(views, vs[1..][i], e);
        assert vs[i + 1] == vs[1..][i];
      }
    }
  }

  lemma {:induction false} TaggedIndex(s: nat, refs: seq<Ref>)
    ensures |Tagged(s, refs)| == |refs|
    ensures forall i :: 0 <= i < |refs| ==> Tagged(s, refs)[i] == Visit(s, refs[i])
    decreases |refs|
  {
    if refs != [] {
      TaggedIndex(s, refs[1..]);
    }
  }

  lemma VisitsFromMembers<K, V>(views: seq<SegmentView<K, V>>, j: nat, v: Visit)
    ensures v in VisitsFrom(views, j) <==> j <= v.segment < |views| && v.ref in Flatten(views[v.segment].chains)
    decreases |views| - j
  {
    if j < |views| {
      TaggedIndex(j, Flatten(views[j].chains));
      VisitsFromMembers(views, j + 1, v);
    }
  }

  ghost predicate NoDupVisits(vs: seq<Visit>)
  {
    forall i, j :: 0 <= i < |vs| && 0 <= j < |vs| && i != j ==> vs[i] != vs[j]
  }

  /** The walk meets every reference of every segment once. */
  lemma {:induction false} VisitsFromDistinct<K, V>(views: seq<SegmentView<K, V>>, j: nat)
    requires forall s :: j <= s < |views| ==> NoDupRefs(Flatten(views[s].chains))
    ensures NoDupVisits(VisitsFrom(views, j))
    decreases |views| - j
  {
    if j < |views| {
      var a := Tagged(j, Flatten(views[j].chains));
      var c := VisitsFrom(views, j + 1);
      TaggedIndex(j, Flatten(views[j].chains));
      VisitsFromDistinct(views, j + 1);
      var w := a + c;
      forall x, y | 0 <= x < |w| && 0 <= y < |w| && x != y ensures w[x] != w[y] {
        if x < |a| && y >= |a| {
          VisitsFromMembers(views, j + 1, w[y]);
          assert w[y] == c[y - |a|];
        } else if x >= |a| && y < |a| {
          VisitsFromMembers(views, j + 1, w[x]);
          assert w[x] == c[x - |a|];
        } else if x >= |a| && y >= |a| {
          assert w[x] == c[x - |a|] && w[y] == c[y - |a|];
        }
      }
    }
  }

  /** Entries that differ in their key, position by position. */
  ghost predicate KeysDistinct<K, V>(es: seq<Entry<K, V>>)
  {
    forall i, j :: 0 <= i < |es| && 0 <= j < |es| && i != j ==> es[i].key != es[j].key
  }

  /** The key of the entry visit `v` resolves to, if it resolves. */
  function KeyAt<K, V>(views: seq<SegmentView<K, V>>, v: Visit): Option<K>
  {
    if v.segment < |views| && v.ref.id in views[v.segment].entries then Some(views[v.segment].entries[v.ref.id].key)
    else None
  }

  /** No two visits resolve to entries of one key. */
  ghost predicate OneVisitPerKey<K, V>(views: seq<SegmentView<K, V>>, vs: seq<Visit>)
  {
    forall x, y :: 0 <= x < |vs| && 0 <= y < |vs| && KeyAt(views, vs[x]).Some? && KeyAt(views, vs[x]) == KeyAt(views, vs[y])
      ==> x == y
  }

  lemma OneVisitPerKeyTail<K, V>(views: seq<SegmentView<K, V>>, vs: seq<Visit>)
    requires vs != [] && OneVisitPerKey(views, vs)
    ensures OneVisitPerKey(views, vs[1..])
  {
    var tail := vs[1..];
    forall x, y | 0 <= x < |tail| && 0 <= y < |tail| && KeyAt(views, tail[x]).Some? && KeyAt(views, tail[x]) == KeyAt(views, tail[y])
      ensures x == y
    {
      assert tail[x] == vs[x + 1] && tail[y] == vs[y + 1];
    }
  }

  /** The key the first visit resolves to is not met again later. */
  lemma HeadKeyFresh<K, V>(views: seq<SegmentView<K, V>>, vs: seq<Visit>, e: Entry<K, V>)
    requires vs != [] && OneVisitPerKey(views, vs) && Resolves(views, vs[0], e)
    ensures forall t :: 0 <= t < |LiveIn(views, vs[1..])| ==> LiveIn(views, vs[1..])[t].key != e.key
  {
    var tail := vs[1..];
    var l := LiveIn(views, tail);
    forall t | 0 <= t < |l| ensures l[t].key != e.key {
      LiveInMembers(views, tail, l[t]);
      var y :| 0 <= y < |tail| && Resolves(views, tail[y], l[t]);
      assert tail[y] == vs[y + 1];
      assert KeyAt(views, vs[y + 1]) == Some(l[t].key);
    }
  }

  lemma ConsKeysDistinct<K, V>(e: Entry<K, V>, l: seq<Entry<K, V>>)
    requires KeysDistinct(l) && forall t :: 0 <= t < |l| ==> l[t].key != e.key
    ensures KeysDistinct([e] + l)
  {
    var w := [e] + l;
    forall x, y | 0 <= x < |w| && 0 <= y < |w| && x != y ensures w[x].key != w[y].key {
      if x > 0 && y > 0 {
        assert w[x] == l[x - 1] && w[y] == l[y - 1];
      } else if x == 0 {
        assert w[y] == l[y - 1];
      } else {
        assert w[x] == l[x - 1];
      }
    }
  }

  /** Visits of which no two resolve to entries of one key give entries of
      distinct keys. */
  lemma {:induction false} LiveInKeysDistinct<K, V>(views: seq<SegmentView<K, V>>, vs: seq<Visit>)
    requires OneVisitPerKey(views, vs)
    ensures KeysDistinct(LiveIn(views, vs))
    decreases |vs|
  {
    if vs != [] {
      OneVisitPerKeyTail(views, vs);
      LiveInKeysDistinct(views, vs[1..]);
      var h := Live(views, vs[0].segment, vs[0].ref);
      if h != [] {
        assert Resolves(views, vs[0], h[0]);
        HeadKeyFresh(views, vs, h[0]);
        ConsKeysDistinct(h[0], LiveIn(views, vs[1..]));
      }
    }
  }

  /** A visited reference that resolves in a valid map is the one its segment
      finds for the entry's key, in the key's own segment. */
  lemma VisitedEntry<K(!new), V>(m: ConcurrentReferenceHashMap<K, V>, vt: Visit, e: Entry<K, V>)
    requires m.Valid()
    requires vt in VisitsFrom(Views(m), 0) && Resolves(Views(m), vt, e)
    ensures vt.segment == m.SegmentFor(e.key) && m.Lookup(e.key) == Some(e.value)
    ensures var seg := m.segments[vt.segment];
      seg.references.Length >= 1 &&
      var b := GetIndex(seg.hashOf(e.key), seg.references.Length);
      b < seg.references.Length && ChainFind(seg.references[b], e.key, seg.hashOf(e.key), seg.entries) == Some(vt.ref)
  {
    var views := Views(m);
    var seg := m.segments[vt.segment];
    var chains := seg.references[..];
    VisitsFromMembers(views, 0, vt);
    FlattenMembers(chains, vt.ref);
    var b :| 0 <= b < |chains| && vt.ref in chains[b];
    Pow2InRange(seg.sizeShift);
    assert GetIndex(seg.hashOf(e.key), |chains|) == b;
    var found := ChainFind(chains[b], e.key, seg.hashOf(e.key), seg.entries);
    assert Matches(vt.ref, e.key, seg.hashOf(e.key), seg.entries);
    assert found == Some(vt.ref);
    assert seg.Lookup(e.key) == Some(e.value);
  }

  /** The iterator's contents are exactly the map's entries: an entry occurs
      in them exactly when its key maps to its value, and no key occurs twice. */
  lemma ContentsAreLookup<K(!new), V>(m: ConcurrentReferenceHashMap<K, V>)
    requires m.Valid()
    ensures forall e :: e in Contents(m) <==> m.Lookup(e.key) == Some(e.value)
    ensures KeysDistinct(Contents(m))
  {
    forall e ensures e in Contents(m) <==> m.Lookup(e.key) == Some(e.value) {
      ContentsMember(m, e);
    }
    ContentsKeysDistinct(m);
  }

  lemma ContentsMember<K(!new), V>(m: ConcurrentReferenceHashMap<K, V>, e: Entry<K, V>)
    requires m.Valid()
    ensures e in Contents(m) <==> m.Lookup(e.key) == Some(e.value)
  {
    LiveInMembers(Views(m), VisitsFrom(Views(m), 0), e);
    if e in Contents(m) {
      ContentsSound(m, e);
    }
    if m.Lookup(e.key) == Some(e.value) {
      ContentsComplete(m, e);
    }
  }

  /** Every entry the iterator yields is a mapping of the map. */
  lemma ContentsSound<K(!new), V>(m: ConcurrentReferenceHashMap<K, V>, e: Entry<K, V>)
    requires m.Valid()
    requires exists i :: 0 <= i < |VisitsFrom(Views(m), 0)| && Resolves(Views(m), VisitsFrom(Views(m), 0)[i], e)
    ensures m.Lookup(e.key) == Some(e.value)
  {
    var vs := VisitsFrom(Views(m), 0);
    var i :| 0 <= i < |vs| && Resolves(Views(m), vs[i], e);
    VisitedEntry(m, vs[i], e);
  }

  /** Every mapping of the map is resolved by some visit of the iterator. */
  lemma ContentsComplete<K(!new), V>(m: ConcurrentReferenceHashMap<K, V>, e: Entry<K, V>)
    requires m.Valid()
    requires m.Lookup(e.key) == Some(e.value)
    ensures exists i :: 0 <= i < |VisitsFrom(Views(m), 0)| && Resolves(Views(m), VisitsFrom(Views(m), 0)[i], e)
  {
    var views := Views(m);
    var vs := VisitsFrom(views, 0);
    var s := m.SegmentFor(e.key);
    var seg := m.segments[s];
    var chains := seg.references[..];
    Pow2InRange(seg.sizeShift);
    var b := GetIndex(seg.hashOf(e.key), |chains|);
    var r := ChainFind(chains[b], e.key, seg.hashOf(e.key), seg.entries).value;
    FlattenMembers(chains, r);
    VisitsFromMembers(views, 0, Visit(s, r));
    var i :| 0 <= i < |vs| && vs[i] == Visit(s, r);
    assert Resolves(views, vs[i], e);
  }

  lemma ContentsKeysDistinct<K(!new), V>(m: ConcurrentReferenceHashMap<K, V>)
    requires m.Valid()
    ensures KeysDistinct(Contents(m))
  {
    var views := Views(m);
    var vs := VisitsFrom(views, 0);
    forall s | 0 <= s < |views| ensures NoDupRefs(Flatten(views[s].chains)) {
      PlacedDisjoint(views[s].chains);
      FlattenDistinct(views[s].chains);
    }
    VisitsFromDistinct(views, 0);
    forall x, y | 0 <= x < |vs| && 0 <= y < |vs| && KeyAt(views, vs[x]).Some? && KeyAt(views, vs[x]) == KeyAt(views, vs[y])
      ensures x == y
    {
      SameKeySameVisit(m, vs[x], vs[y]);
    }
    LiveInKeysDistinct(views, vs);
  }

  /** Two visited references resolving to entries of one key are one visit. */
  lemma SameKeySameVisit<K(!new), V>(m: ConcurrentReferenceHashMap<K, V>, v1: Visit, v2: Visit)
    requires m.Valid()
    requires v1 in VisitsFrom(Views(m), 0) && v2 in VisitsFrom(Views(m), 0)
    requires KeyAt(Views(m), v1).Some? && KeyAt(Views(m), v1) == KeyAt(Views(m), v2)
    ensures v1 == v2
  {
    var views := Views(m);
    var e1 := views[v1.segment].entries[v1.ref.id];
    var e2 := views[v2.segment].entries[v2.ref.id];
    VisitedEntry(m, v1, e1);
    VisitedEntry(m, v2, e2);
  }
}
