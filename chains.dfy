/** Bucket chains of a Segment as values. A chain is the sequence of
    references reached from a bucket slot by following `getNext()` (those
    links are final in the source, so a chain never changes once built).
    A reference carries its identity and the cached hash; what it refers to
    is looked up in `entries`, which holds the entry of every reference
    that still resolves (one that was released or reclaimed is absent). */
module Chains {
  import opened Wrappers
  import opened JavaInt

  datatype Ref = Ref(id: nat, hash: nat)

  datatype Entry<K, V> = Entry(key: K, value: V)

  /** getIndex: `hash & (references.length - 1)`. */
  function GetIndex(hash: nat, length: nat): nat
    requires length >= 1
  {
    And(hash, length - 1)
  }

  lemma GetIndexBound(hash: nat, s: nat)
    ensures GetIndex(hash, Pow2(s)) < Pow2(s)
  {
    AndMask(hash, s);
  }

  /** What findInChain tests: same hash, still resolves, key equal. */
  predicate Matches<K(==), V>(r: Ref, key: K, hash: nat, entries: map<nat, Entry<K, V>>)
  {
    r.hash == hash && r.id in entries && entries[r.id].key == key
  }

  /** findInChain as a value: the first matching reference of the chain. */
  function ChainFind<K(==), V>(chain: seq<Ref>, key: K, hash: nat, entries: map<nat, Entry<K, V>>): (r: Option<Ref>)
    ensures r.Some? ==> r.value in chain && Matches(r.value, key, hash, entries)
    ensures r.None? <==> forall x :: x in chain ==> !Matches(x, key, hash, entries)
  {
    if chain == [] then None
    else if Matches(chain[0], key, hash, entries) then Some(chain[0])
    else ChainFind(chain[1..], key, hash, entries)
  }

  /** The value found for `key` in an array of chains: the bucket is chosen
      by the hash and the entry of the first matching reference is read. */
  function LookupIn<K(==), V>(chains: seq<seq<Ref>>, key: K, hash: nat, entries: map<nat, Entry<K, V>>): Option<V>
  {
    if |chains| == 0 || GetIndex(hash, |chains|) >= |chains| then None   // never taken: lengths are powers of two
    else match ChainFind(chains[GetIndex(hash, |chains|)], key, hash, entries)
      case None => None
      case Some(r) => Some(entries[r.id].value)
  }

  // ---- Invariants of a Segment's chains ----

  /** Every reference sits in the bucket its hash selects. */
  ghost predicate Placed(chains: seq<seq<Ref>>)
  {
    forall b, r :: 0 <= b < |chains| && r in chains[b] ==> GetIndex(r.hash, |chains|) == b
  }

  /** The cached hash of a resolving reference is the hash of its key. */
  ghost predicate HashesAgree<K, V>(chains: seq<seq<Ref>>, entries: map<nat, Entry<K, V>>, hashOf: K -> nat)
  {
    forall b, r :: 0 <= b < |chains| && r in chains[b] && r.id in entries ==> hashOf(entries[r.id].key) == r.hash
  }

  /** Within a bucket, at most one resolving reference per key. */
  ghost predicate KeysUnique<K, V>(chains: seq<seq<Ref>>, entries: map<nat, Entry<K, V>>)
  {
    forall b, r1, r2 ::
      (0 <= b < |chains| && r1 in chains[b] && r2 in chains[b] && r1.id in entries && r2.id in entries
       && entries[r1.id].key == entries[r2.id].key) ==> r1 == r2
  }

  /** Every reference of the chains is among `ids`. */
  ghost predicate AllIn(chains: seq<seq<Ref>>, ids: set<nat>)
  {
    forall b, r :: 0 <= b < |chains| && r in chains[b] ==> r.id in ids
  }

  // ---- Restructuring ----

  /** Whether restructuring relinks `r` into bucket `x` of an array of `length` buckets:
      it is not drained, still resolves, and its hash selects `x`. */
  predicate Kept<K, V>(r: Ref, x: nat, length: nat, entries: map<nat, Entry<K, V>>, toPurge: set<nat>)
    requires length >= 1
  {
    r.id !in toPurge && r.id in entries && GetIndex(r.hash, length) == x
  }

  /** Bucket `x` after the references `refs` were visited in order, each kept one
      being pushed on the head of the bucket (so the bucket ends up newest first
      in visiting order, i.e. reversed). */
  function Relink<K, V>(refs: seq<Ref>, x: nat, length: nat, entries: map<nat, Entry<K, V>>, toPurge: set<nat>): seq<Ref>
    requires length >= 1
  {
    if refs == [] then []
    else
      var rest := Relink(refs[..|refs| - 1], x, length, entries, toPurge);
      if Kept(refs[|refs| - 1], x, length, entries, toPurge) then [refs[|refs| - 1]] + rest else rest
  }

  lemma {:induction false} RelinkMembers<K, V>(refs: seq<Ref>, x: nat, length: nat, entries: map<nat, Entry<K, V>>, toPurge: set<nat>, r: Ref)
    requires length >= 1
    ensures r in Relink(refs, x, length, entries, toPurge) <==> r in refs && Kept(r, x, length, entries, toPurge)
  {
    if refs != [] {
      var init := refs[..|refs| - 1];
      RelinkMembers(init, x, length, entries, toPurge, r);
      assert refs == init + [refs[|refs| - 1]];
    }
  }

  /** Visiting one more reference pushes it on bucket `x` if it is kept there. */
  lemma RelinkSnoc<K, V>(refs: seq<Ref>, r: Ref, x: nat, length: nat, entries: map<nat, Entry<K, V>>, toPurge: set<nat>)
    requires length >= 1
    ensures Relink(refs + [r], x, length, entries, toPurge) ==
      if Kept(r, x, length, entries, toPurge) then [r] + Relink(refs, x, length, entries, toPurge)
      else Relink(refs, x, length, entries, toPurge)
  {
    assert (refs + [r])[..|refs + [r]| - 1] == refs;
  }

  lemma {:induction false} RelinkNoneKept<K, V>(refs: seq<Ref>, x: nat, length: nat, entries: map<nat, Entry<K, V>>, toPurge: set<nat>)
    requires length >= 1
    requires forall r :: r in refs ==> GetIndex(r.hash, length) != x
    ensures Relink(refs, x, length, entries, toPurge) == []
  {
    if refs != [] {
      RelinkNoneKept(refs[..|refs| - 1], x, length, entries, toPurge);
    }
  }

  /** All references of the chains, bucket by bucket, each chain head first. */
  function Flatten(chains: seq<seq<Ref>>): seq<Ref>
  {
    if chains == [] then [] else Flatten(chains[..|chains| - 1]) + chains[|chains| - 1]
  }

  lemma {:induction false} FlattenMembers(chains: seq<seq<Ref>>, r: Ref)
    ensures r in Flatten(chains) <==> exists b :: 0 <= b < |chains| && r in chains[b]
  {
    if chains != [] {
      var init := chains[..|chains| - 1];
      FlattenMembers(init, r);
      if r in chains[|chains| - 1] {
        assert 0 <= |chains| - 1 < |chains| && r in chains[|chains| - 1];
      }
      if exists b :: 0 <= b < |init| && r in init[b] {
        var b :| 0 <= b < |init| && r in init[b];
        assert r in chains[b];
      }
      if exists b :: 0 <= b < |chains| && r in chains[b] {
        var b :| 0 <= b < |chains| && r in chains[b];
        if b < |init| {
          assert r in init[b];
        }
      }
    }
  }

  lemma FlattenStep(chains: seq<seq<Ref>>, i: nat)
    requires i < |chains|
    ensures Flatten(chains[..i + 1]) == Flatten(chains[..i]) + chains[i]
  {
    assert chains[..i + 1][..i] == chains[..i];
  }

  /** Relinking in place, bucket `i` is emptied first: no reference of the
      buckets before it belongs there. */
  lemma EarlierBucketsElsewhere<K, V>(chains: seq<seq<Ref>>, i: nat, entries: map<nat, Entry<K, V>>, toPurge: set<nat>)
    requires Placed(chains) && i < |chains|
    ensures Relink(Flatten(chains[..i]), i, |chains|, entries, toPurge) == []
  {
    forall r | r in Flatten(chains[..i]) ensures GetIndex(r.hash, |chains|) != i {
      FlattenMembers(chains[..i], r);
      var b :| 0 <= b < i && r in chains[..i][b];
      assert r in chains[b];
    }
    RelinkNoneKept(Flatten(chains[..i]), i, |chains|, entries, toPurge);
  }

  /** The bucket array of `length` slots that restructureIfNecessary builds from `chains`. */
  function Restructured<K, V>(chains: seq<seq<Ref>>, length: nat, entries: map<nat, Entry<K, V>>, toPurge: set<nat>): (r: seq<seq<Ref>>)
    requires length >= 1
    ensures |r| == length
  {
    seq(length, x requires 0 <= x < length => Relink(Flatten(chains), x, length, entries, toPurge))
  }

  /** A reference of the rebuilt array was a kept reference of the old one. */
  lemma RestructuredMember<K, V>(chains: seq<seq<Ref>>, length: nat, entries: map<nat, Entry<K, V>>, toPurge: set<nat>, x: nat, r: Ref)
    requires length >= 1 && x < length
    ensures r in Restructured(chains, length, entries, toPurge)[x] <==>
      Kept(r, x, length, entries, toPurge) && exists b :: 0 <= b < |chains| && r in chains[b]
  {
    RelinkMembers(Flatten(chains), x, length, entries, toPurge, r);
    FlattenMembers(chains, r);
  }

  /** Restructuring keeps every invariant of the chains. */
  lemma RestructuredValid<K, V>(chains: seq<seq<Ref>>, length: nat, entries: map<nat, Entry<K, V>>, toPurge: set<nat>, hashOf: K -> nat)
    requires length >= 1
    requires Placed(chains) && HashesAgree(chains, entries, hashOf) && KeysUnique(chains, entries)
    ensures var n := Restructured(chains, length, entries, toPurge);
      Placed(n) && HashesAgree(n, entries, hashOf) && KeysUnique(n, entries) && AllIn(n, entries.Keys)
  {
    var n := Restructured(chains, length, entries, toPurge);
    forall x: nat, r: Ref | 0 <= x < |n| && r in n[x]
      ensures GetIndex(r.hash, length) == x && r.id in entries && hashOf(entries[r.id].key) == r.hash
    {
      RestructuredMember(chains, length, entries, toPurge, x, r);
    }
    forall x: nat, r1: Ref, r2: Ref | 0 <= x < |n| && r1 in n[x] && r2 in n[x] && r1.id in entries && r2.id in entries
      && entries[r1.id].key == entries[r2.id].key
      ensures r1 == r2
    {
      RestructuredMember(chains, length, entries, toPurge, x, r1);
      RestructuredMember(chains, length, entries, toPurge, x, r2);
      var b1 :| 0 <= b1 < |chains| && r1 in chains[b1];
      var b2 :| 0 <= b2 < |chains| && r2 in chains[b2];
      assert b1 == b2;
    }
  }

  /** A reference that is not drained and still resolves is found again, by its
      key and hash, at `hash & (newLength - 1)` of the rebuilt array. */
  lemma RestructuredFindable<K, V>(chains: seq<seq<Ref>>, length: nat, entries: map<nat, Entry<K, V>>, toPurge: set<nat>, hashOf: K -> nat, b: nat, r: Ref)
    requires length >= 1
    requires Placed(chains) && HashesAgree(chains, entries, hashOf) && KeysUnique(chains, entries)
    requires 0 <= b < |chains| && r in chains[b] && r.id in entries && r.id !in toPurge
    requires GetIndex(r.hash, length) < length
    ensures var n := Restructured(chains, length, entries, toPurge);
      r in n[GetIndex(r.hash, length)] &&
      ChainFind(n[GetIndex(r.hash, length)], entries[r.id].key, r.hash, entries) == Some(r)
  {
    var n := Restructured(chains, length, entries, toPurge);
    var x := GetIndex(r.hash, length);
    RestructuredMember(chains, length, entries, toPurge, x, r);
    RestructuredValid(chains, length, entries, toPurge, hashOf);
  }

  /** Restructuring changes no key's value, provided no drained reference still resolves. */
  lemma RestructuredLookup<K, V>(chains: seq<seq<Ref>>, length: nat, entries: map<nat, Entry<K, V>>, toPurge: set<nat>, hashOf: K -> nat, key: K)
    requires |chains| >= 1 && length >= 1
    requires GetIndex(hashOf(key), |chains|) < |chains| && GetIndex(hashOf(key), length) < length
    requires Placed(chains) && HashesAgree(chains, entries, hashOf) && KeysUnique(chains, entries)
    requires forall id :: id in toPurge ==> id !in entries
    ensures LookupIn(Restructured(chains, length, entries, toPurge), key, hashOf(key), entries)
         == LookupIn(chains, key, hashOf(key), entries)
  {
    var h := hashOf(key);
    var n := Restructured(chains, length, entries, toPurge);
    var ob, nb := GetIndex(h, |chains|), GetIndex(h, length);
    forall r: Ref | r in n[nb] && Matches(r, key, h, entries)
      ensures r in chains[ob]
    {
      RestructuredMember(chains, length, entries, toPurge, nb, r);
    }
    forall r: Ref | r in chains[ob] && Matches(r, key, h, entries)
      ensures r in n[nb]
    {
      RestructuredMember(chains, length, entries, toPurge, nb, r);
    }
    var oldFound := ChainFind(chains[ob], key, h, entries);
    var newFound := ChainFind(n[nb], key, h, entries);
    if oldFound.Some? {
      assert newFound.Some?;
      assert newFound.value == oldFound.value;
    } else {
      assert newFound.None?;
    }
  }

  // ---- Single mutations under the lock ----

  /** Every hash selects a slot of an array of `length` buckets. */
  ghost predicate IndexInRange(length: nat)
  {
    length >= 1 && forall h: nat :: GetIndex(h, length) < length
  }

  lemma Pow2InRange(s: nat)
    ensures IndexInRange(Pow2(s))
  {
    forall h: nat ensures GetIndex(h, Pow2(s)) < Pow2(s) {
      GetIndexBound(h, s);
    }
  }

  /** ChainFind only looks at hashes and keys: replacing entries that keep
      their key does not change what it finds. */
  lemma ChainFindSameKeys<K, V>(chain: seq<Ref>, key: K, hash: nat, e1: map<nat, Entry<K, V>>, e2: map<nat, Entry<K, V>>)
    requires forall x :: x in chain ==> (x.id in e1 <==> x.id in e2)
    requires forall x :: x in chain && x.id in e1 ==> e1[x.id].key == e2[x.id].key
    ensures ChainFind(chain, key, hash, e1) == ChainFind(chain, key, hash, e2)
  {
    if chain != [] {
      ChainFindSameKeys(chain[1..], key, hash, e1, e2);
    }
  }

  /** entry.setValue(v) on a resolving reference of key `key`: afterwards
      `key` maps to v and every other key keeps its value. */
  lemma LookupAfterSetValue<K, V>(chains: seq<seq<Ref>>, entries: map<nat, Entry<K, V>>, hashOf: K -> nat, b: nat, r: Ref, v: V, k: K)
    requires IndexInRange(|chains|)
    requires Placed(chains) && HashesAgree(chains, entries, hashOf) && KeysUnique(chains, entries)
    requires 0 <= b < |chains| && r in chains[b] && r.id in entries
    ensures var e2 := entries[r.id := Entry(entries[r.id].key, v)];
      && HashesAgree(chains, e2, hashOf) && KeysUnique(chains, e2)
      && LookupIn(chains, k, hashOf(k), e2) ==
           if k == entries[r.id].key then Some(v) else LookupIn(chains, k, hashOf(k), entries)
  {
    var e2 := entries[r.id := Entry(entries[r.id].key, v)];
    SetValueKeepsKeys(chains, entries, hashOf, r, v);
    var x := GetIndex(hashOf(k), |chains|);
    ChainFindSameKeys(chains[x], k, hashOf(k), entries, e2);
    var found := ChainFind(chains[x], k, hashOf(k), entries);
    if k == entries[r.id].key {
      assert Matches(r, k, hashOf(k), entries);
      assert found.Some? && found.value == r;
    }
  }

  /** Changing an entry's value leaves every key, hence the hash and
      uniqueness invariants, as they were. */
  lemma SetValueKeepsKeys<K, V>(chains: seq<seq<Ref>>, entries: map<nat, Entry<K, V>>, hashOf: K -> nat, r: Ref, v: V)
    requires HashesAgree(chains, entries, hashOf) && KeysUnique(chains, entries) && r.id in entries
    ensures var e2 := entries[r.id := Entry(entries[r.id].key, v)];
      HashesAgree(chains, e2, hashOf) && KeysUnique(chains, e2)
  {
  }

  /** ref.release() on a resolving reference: afterwards its key is absent
      and every other key keeps its value. */
  lemma LookupAfterRelease<K, V>(chains: seq<seq<Ref>>, entries: map<nat, Entry<K, V>>, hashOf: K -> nat, b: nat, r: Ref, k: K)
    requires IndexInRange(|chains|)
    requires Placed(chains) && HashesAgree(chains, entries, hashOf) && KeysUnique(chains, entries)
    requires 0 <= b < |chains| && r in chains[b] && r.id in entries
    ensures var e2 := entries - {r.id};
      && HashesAgree(chains, e2, hashOf) && KeysUnique(chains, e2)
      && LookupIn(chains, k, hashOf(k), e2) ==
           if k == entries[r.id].key then None else LookupIn(chains, k, hashOf(k), entries)
  {
    var e2 := entries - {r.id};
    var x := GetIndex(hashOf(k), |chains|);
    if k == entries[r.id].key {
      forall y | y in chains[x] ensures !Matches(y, k, hashOf(k), e2) {
        if Matches(y, k, hashOf(k), entries) {
          assert y == r;
        }
      }
    } else {
      forall y | y in chains[x] ensures Matches(y, k, hashOf(k), e2) == Matches(y, k, hashOf(k), entries) {
      }
      ChainFindAgree(chains[x], k, hashOf(k), entries, e2);
    }
  }

  /** ChainFind gives the same answer under two entry maps that make the
      same references match, provided matching references read the same. */
  lemma ChainFindAgree<K, V>(chain: seq<Ref>, key: K, hash: nat, e1: map<nat, Entry<K, V>>, e2: map<nat, Entry<K, V>>)
    requires forall y :: y in chain ==> Matches(y, key, hash, e1) == Matches(y, key, hash, e2)
    ensures ChainFind(chain, key, hash, e1) == ChainFind(chain, key, hash, e2)
  {
    if chain != [] {
      ChainFindAgree(chain[1..], key, hash, e1, e2);
    }
  }

  /** A key ChainFind did not find in its bucket is the key of no live
      reference of that bucket. */
  lemma AbsentKeyUnmatched<K, V>(chains: seq<seq<Ref>>, entries: map<nat, Entry<K, V>>, hashOf: K -> nat, b: nat, index: nat, key: K, y: Ref)
    requires Placed(chains) && HashesAgree(chains, entries, hashOf)
    requires index < |chains| && index == GetIndex(hashOf(key), |chains|)
    requires ChainFind(chains[index], key, hashOf(key), entries) == None
    requires b < |chains| && y in chains[b] && y.id in entries && b == index
    ensures entries[y.id].key != key
  {
    if entries[y.id].key == key {
      assert Matches(y, key, hashOf(key), entries);
    }
  }

  /** Entries.add: the chains after pushing `nr` on the head of its bucket. */
  function Pushed(chains: seq<seq<Ref>>, nr: Ref): (r: seq<seq<Ref>>)
    requires IndexInRange(|chains|)
    ensures |r| == |chains|
    ensures r[GetIndex(nr.hash, |chains|)] == [nr] + chains[GetIndex(nr.hash, |chains|)]
    ensures forall b :: 0 <= b < |chains| && b != GetIndex(nr.hash, |chains|) ==> r[b] == chains[b]
  {
    var index := GetIndex(nr.hash, |chains|);
    chains[index := [nr] + chains[index]]
  }

  /** Buckets below `scope` hold the relinking of `refs`. */
  ghost predicate RelinkedBelow<K, V>(t: seq<seq<Ref>>, refs: seq<Ref>, scope: nat, entries: map<nat, Entry<K, V>>, toPurge: set<nat>)
    requires |t| >= 1
  {
    scope <= |t| && forall x :: 0 <= x < scope ==> t[x] == Relink(refs, x, |t|, entries, toPurge)
  }

  /** One step of the relinking loop: a kept reference that lands below
      `scope` is pushed on its bucket, and the buckets from `scope` on stay. */
  lemma RelinkStep<K, V>(t: seq<seq<Ref>>, refs: seq<Ref>, r: Ref, scope: nat, entries: map<nat, Entry<K, V>>, toPurge: set<nat>)
    requires IndexInRange(|t|) && RelinkedBelow(t, refs, scope, entries, toPurge)
    requires GetIndex(r.hash, |t|) < scope
    ensures var t' := if r.id !in toPurge && r.id in entries then Pushed(t, r) else t;
      RelinkedBelow(t', refs + [r], scope, entries, toPurge) && t'[scope..] == t[scope..]
  {
    var t' := if r.id !in toPurge && r.id in entries then Pushed(t, r) else t;
    forall x | 0 <= x < scope ensures t'[x] == Relink(refs + [r], x, |t|, entries, toPurge) {
      RelinkSnoc(refs, r, x, |t|, entries, toPurge);
    }
  }

  /** What Entries.add relies on: `nr` carries the hash of an absent key and
      an id no reference of the chains nor any entry uses. */
  ghost predicate CanPush<K, V>(chains: seq<seq<Ref>>, entries: map<nat, Entry<K, V>>, hashOf: K -> nat, nr: Ref, key: K)
  {
    && IndexInRange(|chains|)
    && Placed(chains) && HashesAgree(chains, entries, hashOf) && KeysUnique(chains, entries)
    && nr.hash == hashOf(key) && nr.id !in entries
    && (forall b, y :: 0 <= b < |chains| && y in chains[b] ==> y.id != nr.id)
    && ChainFind(chains[GetIndex(nr.hash, |chains|)], key, nr.hash, entries) == None
  }

  lemma PushedMember<K, V>(chains: seq<seq<Ref>>, entries: map<nat, Entry<K, V>>, hashOf: K -> nat, nr: Ref, key: K, b: nat, y: Ref)
    requires CanPush(chains, entries, hashOf, nr, key)
    requires b < |chains| && y in Pushed(chains, nr)[b]
    ensures y == nr <==> y !in chains[b]
    ensures y == nr ==> b == GetIndex(nr.hash, |chains|)
  {
  }

  /** Entries.add keeps the chains placed, their hashes right and their keys unique. */
  lemma PushedValid<K, V>(chains: seq<seq<Ref>>, entries: map<nat, Entry<K, V>>, hashOf: K -> nat, nr: Ref, key: K, v: V)
    requires CanPush(chains, entries, hashOf, nr, key)
    ensures var c2 := Pushed(chains, nr);
      var e2 := entries[nr.id := Entry(key, v)];
      Placed(c2) && HashesAgree(c2, e2, hashOf) && KeysUnique(c2, e2)
  {
    var c2 := Pushed(chains, nr);
    var e2 := entries[nr.id := Entry(key, v)];
    var index := GetIndex(nr.hash, |chains|);
    forall b: nat, y: Ref | 0 <= b < |c2| && y in c2[b]
      ensures GetIndex(y.hash, |c2|) == b
      ensures y.id in e2 ==> hashOf(e2[y.id].key) == y.hash
    {
      PushedMember(chains, entries, hashOf, nr, key, b, y);
    }
    forall b: nat, y1: Ref, y2: Ref | 0 <= b < |c2| && y1 in c2[b] && y2 in c2[b] && y1.id in e2 && y2.id in e2
      && e2[y1.id].key == e2[y2.id].key
      ensures y1 == y2
    {
      PushedMember(chains, entries, hashOf, nr, key, b, y1);
      PushedMember(chains, entries, hashOf, nr, key, b, y2);
      if y1 != nr && y2 != nr {
        assert y1 in chains[b] && y2 in chains[b];
      } else if y1 == nr && y2 != nr {
        AbsentKeyUnmatched(chains, entries, hashOf, b, index, key, y2);
      } else if y1 != nr && y2 == nr {
        AbsentKeyUnmatched(chains, entries, hashOf, b, index, key, y1);
      }
    }
  }

  /** After Entries.add the key maps to v and every other key keeps its value. */
  lemma LookupAfterAdd<K, V>(chains: seq<seq<Ref>>, entries: map<nat, Entry<K, V>>, hashOf: K -> nat, nr: Ref, key: K, v: V, k: K)
    requires CanPush(chains, entries, hashOf, nr, key)
    ensures LookupIn(Pushed(chains, nr), k, hashOf(k), entries[nr.id := Entry(key, v)])
         == if k == key then Some(v) else LookupIn(chains, k, hashOf(k), entries)
  {
    var index := GetIndex(nr.hash, |chains|);
    var c2 := Pushed(chains, nr);
    var e2 := entries[nr.id := Entry(key, v)];
    var x := GetIndex(hashOf(k), |chains|);
    forall y | y in chains[x] ensures Matches(y, k, hashOf(k), e2) == Matches(y, k, hashOf(k), entries) {
    }
    ChainFindAgree(chains[x], k, hashOf(k), entries, e2);
    if k != key && x == index {
      assert !Matches(nr, k, hashOf(k), e2);
      assert c2[x][1..] == chains[x];
    }
  }

  // ---- No reference occurs twice ----

  /** No reference occurs twice in the sequence. */
  ghost predicate NoDupRefs(s: seq<Ref>)
  {
    forall i, j :: 0 <= i < |s| && 0 <= j < |s| && i != j ==> s[i] != s[j]
  }

  /** No chain holds a reference twice (each reference object has one `next`). */
  ghost predicate ChainsDistinct(chains: seq<seq<Ref>>)
  {
    forall b :: 0 <= b < |chains| ==> NoDupRefs(chains[b])
  }

  /** No reference sits in two buckets. */
  ghost predicate BucketsDisjoint(chains: seq<seq<Ref>>)
  {
    forall b1, b2, r :: 0 <= b1 < |chains| && 0 <= b2 < |chains| && r in chains[b1] && r in chains[b2] ==> b1 == b2
  }

  lemma NoDupConcat(a: seq<Ref>, c: seq<Ref>)
    requires NoDupRefs(a) && NoDupRefs(c) && forall r :: r in a ==> r !in c
    ensures NoDupRefs(a + c)
  {
    var s := a + c;
    forall i, j | 0 <= i < |s| && 0 <= j < |s| && i != j ensures s[i] != s[j] {
      if i < |a| && j >= |a| {
        assert s[i] in a && s[j] == c[j - |a|];
      } else if i >= |a| && j < |a| {
        assert s[j] in a && s[i] == c[i - |a|];
      } else if i >= |a| && j >= |a| {
        assert s[i] == c[i - |a|] && s[j] == c[j - |a|];
      }
    }
  }

  /** Walking distinct chains of disjoint buckets meets every reference once. */
  lemma {:induction false} FlattenDistinct(chains: seq<seq<Ref>>)
    requires ChainsDistinct(chains) && BucketsDisjoint(chains)
    ensures NoDupRefs(Flatten(chains))
  {
    if chains != [] {
      var n := |chains| - 1;
      var init := chains[..n];
      assert forall b :: 0 <= b < |init| ==> init[b] == chains[b];
      FlattenDistinct(init);
      forall r | r in Flatten(init) ensures r !in chains[n] {
        FlattenMembers(init, r);
        var b :| 0 <= b < |init| && r in init[b];
        assert r in chains[b];
      }
      NoDupConcat(Flatten(init), chains[n]);
    }
  }

  lemma PlacedDisjoint(chains: seq<seq<Ref>>)
    requires Placed(chains)
    ensures BucketsDisjoint(chains)
  {
    forall b1, b2, r | 0 <= b1 < |chains| && 0 <= b2 < |chains| && r in chains[b1] && r in chains[b2]
      ensures b1 == b2
    {
      assert GetIndex(r.hash, |chains|) == b1 && GetIndex(r.hash, |chains|) == b2;
    }
  }

  /** Relinking a walk that meets each reference once pushes each at most once. */
  lemma {:induction false} RelinkDistinct<K, V>(refs: seq<Ref>, x: nat, length: nat, entries: map<nat, Entry<K, V>>, toPurge: set<nat>)
    requires length >= 1 && NoDupRefs(refs)
    ensures NoDupRefs(Relink(refs, x, length, entries, toPurge))
  {
    if refs != [] {
      var n := |refs| - 1;
      var init := refs[..n];
      assert forall i :: 0 <= i < |init| ==> init[i] == refs[i];
      RelinkDistinct(init, x, length, entries, toPurge);
      RelinkMembers(init, x, length, entries, toPurge, refs[n]);
      NoDupConcat([refs[n]], Relink(init, x, length, entries, toPurge));
    }
  }

  /** Restructuring keeps every chain free of repeated references. */
  lemma RestructuredDistinct<K, V>(chains: seq<seq<Ref>>, length: nat, entries: map<nat, Entry<K, V>>, toPurge: set<nat>)
    requires length >= 1 && ChainsDistinct(chains) && Placed(chains)
    ensures ChainsDistinct(Restructured(chains, length, entries, toPurge))
  {
    PlacedDisjoint(chains);
    FlattenDistinct(chains);
    forall x | 0 <= x < length ensures NoDupRefs(Restructured(chains, length, entries, toPurge)[x]) {
      RelinkDistinct(Flatten(chains), x, length, entries, toPurge);
    }
  }

  /** Pushing a reference no chain holds keeps every chain free of repeats. */
  lemma PushedDistinct(chains: seq<seq<Ref>>, nr: Ref)
    requires IndexInRange(|chains|) && ChainsDistinct(chains)
    requires forall b :: 0 <= b < |chains| ==> nr !in chains[b]
    ensures ChainsDistinct(Pushed(chains, nr))
  {
    var index := GetIndex(nr.hash, |chains|);
    NoDupConcat([nr], chains[index]);
  }
}
