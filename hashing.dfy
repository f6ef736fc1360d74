/** The static helpers of ConcurrentReferenceHashMap: the hash spreader,
    shift calculation, routing of a hash to a segment, the null-safe
    equality and the null-safe hash codes of values and arrays. */
module Hashing {
  import opened Wrappers
  import opened JavaInt

  const InitialHash: bv32 := 7
  const Multiplier: bv32 := 31
  const MaximumConcurrencyLevel: nat := 0x1_0000
  const MaximumSegmentSize: nat := 0x4000_0000

  /** getHash: spreads the bits of an object's hash code (0 for null) with
      shift-xor-add steps; every operation wraps around at 32 bits. */
  function GetHash(hashCode: bv32): bv32
  {
    var h0 := hashCode;
    var h1 := h0 + ((h0 << 15) ^ 0xFFFF_CD7D);   // -12931
    var h2 := h1 ^ (h1 >> 10);
    var h3 := h2 + (h2 << 3);
    var h4 := h3 ^ (h3 >> 6);
    var h5 := h4 + ((h4 << 2) + (h4 << 14));
    h5 ^ (h5 >> 16)
  }

  /** The mixed hash of the null key. */
  lemma NullKeyHash()
    ensures GetHash(0) == 0xA78B_AEF2
  {
  }

  /** The unsigned value of a 32-bit word: the form in which the map's bit
      masks and unsigned shifts are stated. */
  function Unsigned(w: bv32): (r: nat)
    ensures r < TwoTo32
  {
    w as nat
  }

  function Min(a: int, b: int): int { if a <= b then a else b }

  /** calculateShift: the number of doublings of 1 it takes to reach the
      smaller of the two bounds. */
  method CalculateShift(minimumValue: int, maximumValue: int) returns (shift: nat)
    requires 1 <= maximumValue <= MaximumSegmentSize
    ensures Pow2(shift) >= Min(minimumValue, maximumValue)
    ensures shift > 0 ==> Pow2(shift - 1) < Min(minimumValue, maximumValue)
    ensures Pow2(shift) <= 2 * maximumValue - 1
  {
    shift := 0;
    var value := 1;
    while value < minimumValue && value < maximumValue
      invariant value == Pow2(shift)
      invariant value <= 2 * maximumValue - 1
      invariant shift > 0 ==> Pow2(shift - 1) < Min(minimumValue, maximumValue)
    {
      value := value * 2;
      shift := shift + 1;
    }
  }

  /** The two postconditions of CalculateShift pin the shift down: it is the
      least s with 2^s at or above the smaller bound. */
  lemma ShiftIsLeast(m: int, s: nat, t: nat)
    requires Pow2(s) >= m
    requires s > 0 ==> Pow2(s - 1) < m
    requires Pow2(t) >= m
    ensures s <= t
  {
    if t < s {
      Pow2Monotone(t, s - 1);
    }
  }

  /** For a bound that is itself a power of two, the shift never exceeds
      its exponent: so at most 65536 segments and 2^30 buckets. */
  lemma ShiftAtMostBound(m: int, s: nat, k: nat)
    requires Pow2(s) >= Min(m, Pow2(k))
    requires s > 0 ==> Pow2(s - 1) < Min(m, Pow2(k))
    ensures s <= k && Pow2(s) <= Pow2(k)
    ensures Pow2(s) > 1 ==> Pow2(s) / 2 < Min(m, Pow2(k))
  {
    if s > k {
      Pow2Monotone(k, s - 1);
    }
    Pow2Monotone(s, k);
    if s > 0 {
      assert Pow2(s) == 2 * Pow2(s - 1);
    }
  }

  /** getSegmentForHash: `hash >>> (32 - shift) & (segments.length - 1)`. */
  function SegmentIndex(hash: nat, shift: nat): nat
    requires shift <= 16
  {
    And(UnsignedShiftRight(hash, 32 - shift), Pow2(shift) - 1)
  }

  lemma SegmentIndexBound(hash: nat, shift: nat)
    requires shift <= 16
    ensures SegmentIndex(hash, shift) < Pow2(shift)
  {
    AndMask(UnsignedShiftRight(hash, 32 - shift), shift);
  }

  /** With a single segment the shift distance is 32, which Java reduces to
      0, and the mask 0 sends every hash to segment 0. */
  lemma SingleSegmentIndex(hash: nat)
    ensures SegmentIndex(hash, 0) == 0
  {
  }

  /** With two or more segments the index is the top `shift` bits of the hash. */
  lemma SegmentIndexIsHighBits(hash: nat, shift: nat)
    requires 1 <= shift <= 16 && hash < TwoTo32
    ensures SegmentIndex(hash, shift) == hash / Pow2(32 - shift)
  {
    var d := Pow2(32 - shift);
    var q := hash / d;
    assert UnsignedShiftRight(hash, 32 - shift) == q;
    Pow2Add(32 - shift, shift);
    Pow2Values();
    DivBound(hash, d, Pow2(shift));
    AndMask(q, shift);
    DivModUnique(q, Pow2(shift), 0, q);
  }

  lemma DivBound(h: nat, d: nat, p: nat)
    requires d > 0 && h < d * p
    ensures h / d < p
  {
    var q := h / d;
    assert h == q * d + h % d;
    if q >= p {
      MulMono(q, p, d);
    }
  }

  lemma MulMono(a: nat, b: nat, d: nat)
    requires a >= b
    ensures a * d >= b * d
  {
    assert a * d == b * d + (a - b) * d;
  }

  /** nullSafeEquals: true iff both are null or both are equal values. With
      values compared by content, array contents are compared too. */
  function NullSafeEquals<T(==)>(o1: Option<T>, o2: Option<T>): (r: bool)
    ensures o1.None? && o2.None? ==> r
    ensures r ==> (o1.None? <==> o2.None?)
    ensures o1.Some? && o2.Some? ==> (r <==> o1.value == o2.value)
  {
    o1 == o2
  }

  /** Boolean.hashCode. */
  function HashCodeBoolean(b: bool): (r: bv32)
    ensures r == 1231 || r == 1237
    ensures (r == 1231) <==> b
  {
    if b then 1231 else 1237
  }

  /** Long.hashCode: `(int)(lng ^ (lng >>> 32))`. */
  function HashCodeLong(lng: bv64): (r: bv32)
    ensures r == ((lng & 0xFFFF_FFFF) as bv32) ^ ((lng >> 32) as bv32)
  {
    ((lng ^ (lng >> 32)) & 0xFFFF_FFFF) as bv32
  }

  /** A byte or short is widened to int with its sign, a char without. */
  function SignExtendByte(b: bv8): bv32
  {
    if b < 0x80 then b as bv32 else (b as bv32) | 0xFFFF_FF00
  }

  function SignExtendShort(s: bv16): bv32
  {
    if s < 0x8000 then s as bv32 else (s as bv32) | 0xFFFF_0000
  }

  function ZeroExtendChar(c: bv16): bv32
  {
    c as bv32
  }

  /** One step of the array loops: `hash = MULTIPLIER * hash + element`. */
  function Step(hash: bv32, element: bv32): bv32
  {
    Multiplier * hash + element
  }

  /** The loop of the array hash codes, run from `hash` over the element
      hash codes left to right. */
  function FoldHashes(hash: bv32, hs: seq<bv32>): bv32
    decreases |hs|
  {
    if hs == [] then hash else FoldHashes(Step(hash, hs[0]), hs[1..])
  }

  /** Adding one element at the end takes one more step from the hash of
      the shorter array. */
  lemma {:induction false} FoldHashesSnoc(hash: bv32, hs: seq<bv32>, x: bv32)
    ensures FoldHashes(hash, hs + [x]) == Step(FoldHashes(hash, hs), x)
    decreases |hs|
  {
    if hs == [] {
      assert [x][1..] == [];
    } else {
      assert (hs + [x])[1..] == hs[1..] + [x];
      FoldHashesSnoc(Step(hash, hs[0]), hs[1..], x);
    }
  }

  function MapSeq<T>(s: seq<T>, f: T -> bv32): (r: seq<bv32>)
    ensures |r| == |s| && forall i :: 0 <= i < |s| ==> r[i] == f(s[i])
  {
    if s == [] then [] else [f(s[0])] + MapSeq(s[1..], f)
  }

  /** The hash code of a possibly null array whose elements hash by `f`:
      0 for null, else INITIAL_HASH folded with the element hashes. */
  function ArrayHash<T>(elements: Option<seq<T>>, f: T -> bv32): (r: bv32)
    ensures elements.None? ==> r == 0
    ensures elements == Some([]) ==> r == InitialHash
  {
    match elements
    case None => 0
    case Some(a) => FoldHashes(InitialHash, MapSeq(a, f))
  }

  /** The loop shared by the nullSafeHashCode overloads for int, long,
      short, char, byte and boolean arrays; `elementHash` is the widening
      (or hashCode) the overload applies to an element. */
  method NullSafeArrayHashCode<T>(elements: Option<seq<T>>, elementHash: T -> bv32) returns (hash: bv32)
    ensures hash == ArrayHash(elements, elementHash)
  {
    if elements.None? {
      return 0;
    }
    var a := elements.value;
    hash := InitialHash;
    var i := 0;
    while i < |a|
      invariant 0 <= i <= |a|
      invariant FoldHashes(hash, MapSeq(a[i..], elementHash)) == FoldHashes(InitialHash, MapSeq(a, elementHash))
    {
      assert MapSeq(a[i..], elementHash) == [elementHash(a[i])] + MapSeq(a[i + 1..], elementHash);
      hash := Step(hash, elementHash(a[i]));
      i := i + 1;
    }
    assert a[|a|..] == [];
  }

  function IntElement(x: bv32): bv32 { x }
  function LongElement(x: bv64): bv32 { HashCodeLong(x) }

  /** The value an Object parameter can hold: null, a plain object with its
      own hashCode, or an array of one of the element types. */
  datatype JObject =
    | Null
    | Plain(hashCode: bv32)
    | BooleanArray(booleans: seq<bool>)
    | ByteArray(bytes: seq<bv8>)
    | CharArray(chars: seq<bv16>)
    | ShortArray(shorts: seq<bv16>)
    | IntArray(ints: seq<bv32>)
    | LongArray(longs: seq<bv64>)
    | ObjectArray(elements: seq<JObject>)

  /** nullSafeHashCode(Object): 0 for null, the array hash for an array,
      the object's own hashCode otherwise. The contract is the dispatch
      table; the hashes themselves are specified by `ArrayHash`, its loop
      `NullSafeArrayHashCode` and `ObjectArrayHash`. */
  function NullSafeHashCode(obj: JObject): (r: bv32)
    decreases obj, 1
    ensures obj.Null? ==> r == 0
    ensures obj.Plain? ==> r == obj.hashCode
    ensures obj.BooleanArray? ==> r == ArrayHash(Some(obj.booleans), HashCodeBoolean)
    ensures obj.ByteArray? ==> r == ArrayHash(Some(obj.bytes), SignExtendByte)
    ensures obj.CharArray? ==> r == ArrayHash(Some(obj.chars), ZeroExtendChar)
    ensures obj.ShortArray? ==> r == ArrayHash(Some(obj.shorts), SignExtendShort)
    ensures obj.IntArray? ==> r == ArrayHash(Some(obj.ints), IntElement)
    ensures obj.LongArray? ==> r == ArrayHash(Some(obj.longs), LongElement)
    ensures obj.ObjectArray? && obj.elements == [] ==> r == InitialHash
  {
    match obj
    case Null => 0
    case Plain(h) => h
    case BooleanArray(a) => ArrayHash(Some(a), HashCodeBoolean)
    case ByteArray(a) => ArrayHash(Some(a), SignExtendByte)
    case CharArray(a) => ArrayHash(Some(a), ZeroExtendChar)
    case ShortArray(a) => ArrayHash(Some(a), SignExtendShort)
    case IntArray(a) => ArrayHash(Some(a), IntElement)
    case LongArray(a) => ArrayHash(Some(a), LongElement)
    case ObjectArray(a) => ObjectArrayFold(InitialHash, a, obj)
  }

  /** nullSafeHashCode(Object[]): each element contributes its own
      nullSafeHashCode. */
  function ObjectArrayFold(hash: bv32, a: seq<JObject>, ghost whole: JObject): bv32
    requires forall i :: 0 <= i < |a| ==> a[i] < whole
    decreases whole, 0, |a|
  {
    if a == [] then hash else ObjectArrayFold(Step(hash, NullSafeHashCode(a[0])), a[1..], whole)
  }

  /** An object array hashes like the other arrays, each element by its own
      nullSafeHashCode. */
  lemma ObjectArrayHash(a: seq<JObject>)
    ensures NullSafeHashCode(ObjectArray(a)) == ArrayHash(Some(a), NullSafeHashCode)
  {
    ObjectArrayFoldIs(InitialHash, a, ObjectArray(a));
  }

  lemma {:induction false} ObjectArrayFoldIs(hash: bv32, a: seq<JObject>, whole: JObject)
    requires forall i :: 0 <= i < |a| ==> a[i] < whole
    ensures ObjectArrayFold(hash, a, whole) == FoldHashes(hash, MapSeq(a, NullSafeHashCode))
    decreases |a|
  {
    if a != [] {
      assert MapSeq(a, NullSafeHashCode) == [NullSafeHashCode(a[0])] + MapSeq(a[1..], NullSafeHashCode);
      ObjectArrayFoldIs(Step(hash, NullSafeHashCode(a[0])), a[1..], whole);
    }
  }
}
