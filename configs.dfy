/** The application configuration: a YAML document flattened into a table
    of dotted keys (`server.port`, `hosts[0]`), read back as strings or
    ints. The YAML library's output is a `Yaml` value; loading it from the
    class path is not part of this model. */
module Configs {
  import opened Wrappers
  import opened Text

  /** What the YAML loader hands back for one node. Maps keep their entry
      order (the loader builds insertion-ordered maps). `Int` is a boxed
      Integer; every other scalar (Long, Double, Date, ...) is a `Scalar`
      carrying its String.valueOf text. */
  datatype Yaml =
    | Null
    | Str(s: string)
    | Int(i: int32)
    | Bool(b: bool)
    | Scalar(text: string)
    | Mapping(entries: seq<(string, Yaml)>)
    | List(items: seq<Yaml>)

  /** One `result.put(key, value)` of the flattening. */
  type Put = (string, Yaml)

  // ---------------------------------------------------------------------
  // Sizes, for the termination of the mutually recursive flattening

  ghost function SizeOf(y: Yaml): nat
    decreases y, 1, 0
  {
    match y
    case Mapping(es) => 1 + EntriesSize(es, 0)
    case List(items) => 1 + ItemsSize(items, 0)
    case _ => 1
  }

  ghost function EntriesSize(es: seq<(string, Yaml)>, from: nat): nat
    requires from <= |es|
    decreases Mapping(es), 0, |es| - from
  {
    if from == |es| then 0 else 1 + SizeOf(es[from].1) + EntriesSize(es, from + 1)
  }

  ghost function ItemsSize(items: seq<Yaml>, from: nat): nat
    requires from <= |items|
    decreases List(items), 0, |items| - from
  {
    if from == |items| then 0 else 2 + SizeOf(items[from]) + ItemsSize(items, from + 1)
  }

  lemma {:induction false} EntrySmaller(es: seq<(string, Yaml)>, from: nat, i: nat)
    requires from <= i < |es|
    ensures SizeOf(es[i].1) < EntriesSize(es, from)
    decreases i - from
  {
    if from < i {
      EntrySmaller(es, from + 1, i);
    }
  }

  lemma {:induction false} ItemSmaller(items: seq<Yaml>, from: nat, i: nat)
    requires from <= i < |items|
    ensures 2 + SizeOf(items[i]) <= ItemsSize(items, from)
    decreases i - from
  {
    if from < i {
      ItemSmaller(items, from + 1, i);
    }
  }

  // ---------------------------------------------------------------------
  // The flattening, as the sequence of puts it performs

  /** The key an entry is stored under: unchanged below a blank path,
      appended directly for an index key such as `[0]`, and joined with a
      dot otherwise. */
  function KeyFor(path: Option<string>, key: string): (k: string)
    ensures IsBlank(path) ==> k == key
    ensures !IsBlank(path) && StartsWith(key, "[") ==> k == path.value + key
    ensures !IsBlank(path) && !StartsWith(key, "[") ==> k == path.value + "." + key
  {
    if IsBlank(path) then key
    else if StartsWith(key, "[") then path.value + key
    else path.value + "." + key
  }

  /** The key of the element at `index` of a list. */
  function IndexKey(index: nat): string
  {
    "[" + DecimalString(index) + "]"
  }

  /** The puts made for one entry of a map being flattened under `path`. */
  function EntryPuts(key: string, value: Yaml, path: Option<string>): seq<Put>
    decreases value, 1, 0
  {
    var k := KeyFor(path, key);
    match value
    case Str(_) => [(k, value)]
    case Mapping(es) => Puts(es, 0, Some(k))
    case List(items) => [(k, value)] + ItemPuts(items, 0, k)
    case Null => [(k, Str(""))]
    case _ => [(k, value)]
  }

  /** The puts made for the entries of `es` from position `from` on. */
  function Puts(es: seq<(string, Yaml)>, from: nat, path: Option<string>): seq<Put>
    requires from <= |es|
    decreases Mapping(es), 0, |es| - from
  {
    if from == |es| then [] else EntryPuts(es[from].0, es[from].1, path) + Puts(es, from + 1, path)
  }

  /** The puts made for the elements of a list stored under `key`, from
      position `from` on: each element is flattened as the only entry of a
      map whose key is its index. */
  function ItemPuts(items: seq<Yaml>, from: nat, key: string): seq<Put>
    requires from <= |items|
    decreases List(items), 0, |items| - from
  {
    if from == |items| then []
    else EntryPuts(IndexKey(from), items[from], Some(key)) + ItemPuts(items, from + 1, key)
  }

  /** The table after performing `puts` in order on `m`. */
  function Apply(m: map<string, Yaml>, puts: seq<Put>): map<string, Yaml>
    decreases |puts|
  {
    if puts == [] then m else Apply(m[puts[0].0 := puts[0].1], puts[1..])
  }

  lemma {:induction false} ApplyConcat(m: map<string, Yaml>, a: seq<Put>, b: seq<Put>)
    ensures Apply(m, a + b) == Apply(Apply(m, a), b)
    decreases |a|
  {
    if a == [] {
      assert a + b == b;
    } else {
      assert (a + b)[0] == a[0];
      assert (a + b)[1..] == a[1..] + b;
      ApplyConcat(m[a[0].0 := a[0].1], a[1..], b);
    }
  }

  /** A key no put mentions keeps what it had. */
  lemma {:induction false} ApplyUntouched(m: map<string, Yaml>, puts: seq<Put>, k: string)
    requires forall i :: 0 <= i < |puts| ==> puts[i].0 != k
    ensures k in Apply(m, puts) <==> k in m
    ensures k in m ==> Apply(m, puts)[k] == m[k]
    decreases |puts|
  {
    if puts != [] {
      ApplyUntouched(m[puts[0].0 := puts[0].1], puts[1..], k);
    }
  }

  /** The last put of a key decides its value. */
  lemma {:induction false} ApplyLastWins(m: map<string, Yaml>, puts: seq<Put>, i: nat)
    requires i < |puts|
    requires forall j :: i < j < |puts| ==> puts[j].0 != puts[i].0
    ensures puts[i].0 in Apply(m, puts) && Apply(m, puts)[puts[i].0] == puts[i].1
    decreases |puts|
  {
    if i == 0 {
      ApplyUntouched(m[puts[0].0 := puts[0].1], puts[1..], puts[0].0);
    } else {
      ApplyLastWins(m[puts[0].0 := puts[0].1], puts[1..], i - 1);
    }
  }

  // ---------------------------------------------------------------------
  // The imperative flattening

  /** The Java map `result` that the flattening fills in place. */
  class FlatMap {
    var entries: map<string, Yaml>

    constructor ()
      ensures entries == map[]
    {
      entries := map[];
    }

    method Put(key: string, value: Yaml)
      modifies this
      ensures entries == old(entries)[key := value]
    {
      entries := entries[key := value];
    }
  }

  /** buildFlattenedMap: every entry of `source`, in order, is stored into
      `result` under `path`. */
  method BuildFlattenedMap(result: FlatMap, source: seq<(string, Yaml)>, path: Option<string>)
    modifies result
    ensures result.entries == Apply(old(result.entries), Puts(source, 0, path))
    decreases EntriesSize(source, 0), 0
  {
    var i := 0;
    while i < |source|
      invariant 0 <= i <= |source|
      invariant Apply(result.entries, Puts(source, i, path)) == Apply(old(result.entries), Puts(source, 0, path))
    {
      ghost var before := result.entries;
      EntrySmaller(source, 0, i);
      FlattenEntry(result, source[i].0, source[i].1, path);
      ApplyConcat(before, EntryPuts(source[i].0, source[i].1, path), Puts(source, i + 1, path));
      i := i + 1;
    }
  }

  /** The body of buildFlattenedMap's loop, for one entry. */
  method FlattenEntry(result: FlatMap, entryKey: string, value: Yaml, path: Option<string>)
    modifies result
    ensures result.entries == Apply(old(result.entries), EntryPuts(entryKey, value, path))
    decreases SizeOf(value), 1
  {
    var key := entryKey;
    if !IsBlank(path) {
      if StartsWith(key, "[") {
        key := path.value + key;
      } else {
        key := path.value + "." + key;
      }
    }
    assert key == KeyFor(path, entryKey);
    match value
    case Str(_) =>
      result.Put(key, value);
    case Mapping(es) =>
      BuildFlattenedMap(result, es, Some(key));
    case List(items) =>
      FlattenList(result, key, items);
    case Null =>
      result.Put(key, Str(""));
    case _ =>
      result.Put(key, value);
  }

  /** A collection value: stored whole, then each element flattened as the
      only entry of a map keyed by its index, below the collection's key. */
  method FlattenList(result: FlatMap, key: string, items: seq<Yaml>)
    modifies result
    ensures result.entries == Apply(old(result.entries), [(key, List(items))] + ItemPuts(items, 0, key))
    decreases SizeOf(List(items)), 0
  {
    result.Put(key, List(items));
    ghost var stored := result.entries;
    var count := 0;
    while count < |items|
      invariant 0 <= count <= |items|
      invariant Apply(result.entries, ItemPuts(items, count, key)) == Apply(stored, ItemPuts(items, 0, key))
    {
      ghost var before := result.entries;
      ItemSmaller(items, 0, count);
      assert EntriesSize([(IndexKey(count), items[count])], 1) == 0;
      BuildFlattenedMap(result, [(IndexKey(count), items[count])], Some(key));
      ghost var element := EntryPuts(IndexKey(count), items[count], Some(key));
      assert Puts([(IndexKey(count), items[count])], 0, Some(key)) == element + [] == element;
      assert result.entries == Apply(before, element);
      assert ItemPuts(items, count, key) == element + ItemPuts(items, count + 1, key);
      ApplyConcat(before, element, ItemPuts(items, count + 1, key));
      count := count + 1;
    }
    ApplyConcat(old(result.entries), [(key, List(items))], ItemPuts(items, 0, key));
  }

  // ---------------------------------------------------------------------
  // What the flattening guarantees

  /** A stored value is never a map (maps are flattened into their entries)
      and never null (null is stored as the empty string). */
  predicate Flat(puts: seq<Put>)
  {
    forall i :: 0 <= i < |puts| ==> !puts[i].1.Mapping? && !puts[i].1.Null?
  }

  lemma FlatConcat(a: seq<Put>, b: seq<Put>)
    requires Flat(a) && Flat(b)
    ensures Flat(a + b)
  {
  }

  lemma {:induction false} EntryPutsFlat(key: string, value: Yaml, path: Option<string>)
    ensures Flat(EntryPuts(key, value, path))
    decreases value, 1, 0
  {
    var k := KeyFor(path, key);
    match value
    case Mapping(es) => PutsFlat(es, 0, Some(k));
    case List(items) =>
      ItemPutsFlat(items, 0, k);
      FlatConcat([(k, value)], ItemPuts(items, 0, k));
    case _ =>
  }

  lemma {:induction false} PutsFlat(es: seq<(string, Yaml)>, from: nat, path: Option<string>)
    requires from <= |es|
    ensures Flat(Puts(es, from, path))
    decreases Mapping(es), 0, |es| - from
  {
    if from < |es| {
      EntryPutsFlat(es[from].0, es[from].1, path);
      PutsFlat(es, from + 1, path);
      FlatConcat(EntryPuts(es[from].0, es[from].1, path), Puts(es, from + 1, path));
    }
  }

  lemma {:induction false} ItemPutsFlat(items: seq<Yaml>, from: nat, key: string)
    requires from <= |items|
    ensures Flat(ItemPuts(items, from, key))
    decreases List(items), 0, |items| - from
  {
    if from < |items| {
      EntryPutsFlat(IndexKey(from), items[from], Some(key));
      ItemPutsFlat(items, from + 1, key);
      FlatConcat(EntryPuts(IndexKey(from), items[from], Some(key)), ItemPuts(items, from + 1, key));
    }
  }

  /** `k` lies below path `p`: `p` followed by a dot or an index. */
  predicate Under(k: string, p: string)
  {
    |p| < |k| && k[..|p|] == p && (k[|p|] == '.' || k[|p|] == '[')
  }

  predicate AllUnder(puts: seq<Put>, p: string)
  {
    forall i :: 0 <= i < |puts| ==> Under(puts[i].0, p)
  }

  lemma UnderTransitive(k: string, q: string, p: string)
    requires Under(k, q) && Under(q, p)
    ensures Under(k, p)
  {
    assert k[..|p|] == k[..|q|][..|p|];
    assert k[|p|] == k[..|q|][|p|];
  }

  /** A key computed below a non-blank path lies below it, and is itself not
      blank. */
  lemma KeyForUnder(p: string, key: string)
    requires !IsBlank(Some(p))
    ensures Under(KeyFor(Some(p), key), p)
    ensures !IsBlank(Some(KeyFor(Some(p), key)))
  {
    var k := KeyFor(Some(p), key);
    var w :| 0 <= w < |p| && !IsWhitespace(p[w]);
    assert k[..|p|] == p;
    assert k[w] == p[w];
  }

  lemma AllUnderConcat(a: seq<Put>, b: seq<Put>, p: string)
    requires AllUnder(a, p) && AllUnder(b, p)
    ensures AllUnder(a + b, p)
  {
  }

  lemma AllUnderDeeper(puts: seq<Put>, q: string, p: string)
    requires AllUnder(puts, q) && Under(q, p)
    ensures AllUnder(puts, p)
  {
    forall i | 0 <= i < |puts| ensures Under(puts[i].0, p) {
      UnderTransitive(puts[i].0, q, p);
    }
  }

  /** Below a non-blank path every stored key is qualified by that path. */
  lemma {:induction false} EntryPutsUnder(key: string, value: Yaml, p: string)
    requires !IsBlank(Some(p))
    ensures AllUnder(EntryPuts(key, value, Some(p)), p)
    decreases value, 1, 0
  {
    var k := KeyFor(Some(p), key);
    KeyForUnder(p, key);
    match value
    case Mapping(es) =>
      PutsUnder(es, 0, k);
      AllUnderDeeper(Puts(es, 0, Some(k)), k, p);
    case List(items) =>
      ItemPutsUnder(items, 0, k);
      AllUnderDeeper(ItemPuts(items, 0, k), k, p);
      AllUnderConcat([(k, value)], ItemPuts(items, 0, k), p);
    case _ =>
  }

  lemma {:induction false} PutsUnder(es: seq<(string, Yaml)>, from: nat, p: string)
    requires from <= |es|
    requires !IsBlank(Some(p))
    ensures AllUnder(Puts(es, from, Some(p)), p)
    decreases Mapping(es), 0, |es| - from
  {
    if from < |es| {
      EntryPutsUnder(es[from].0, es[from].1, p);
      PutsUnder(es, from + 1, p);
      AllUnderConcat(EntryPuts(es[from].0, es[from].1, Some(p)), Puts(es, from + 1, Some(p)), p);
    }
  }

  lemma {:induction false} ItemPutsUnder(items: seq<Yaml>, from: nat, key: string)
    requires from <= |items|
    requires !IsBlank(Some(key))
    ensures AllUnder(ItemPuts(items, from, key), key)
    decreases List(items), 0, |items| - from
  {
    if from < |items| {
      EntryPutsUnder(IndexKey(from), items[from], key);
      ItemPutsUnder(items, from + 1, key);
      AllUnderConcat(EntryPuts(IndexKey(from), items[from], Some(key)), ItemPuts(items, from + 1, key), key);
    }
  }

  /** A list is stored whole under its key, and its element at `index` is
      flattened under `key[index]` when that key is not blank. */
  lemma ListElementKey(key: string, index: nat)
    requires !IsBlank(Some(key))
    ensures KeyFor(Some(key), IndexKey(index)) == key + IndexKey(index)
  {
    assert StartsWith(IndexKey(index), "[");
  }

  /** Only keys that were already present or that some put mentions are
      present afterwards. */
  lemma {:induction false} ApplyDomain(m: map<string, Yaml>, puts: seq<Put>, k: string)
    requires k in Apply(m, puts)
    ensures k in m || exists i :: 0 <= i < |puts| && puts[i].0 == k
    decreases |puts|
  {
    if puts != [] && k != puts[0].0 {
      ApplyDomain(m[puts[0].0 := puts[0].1], puts[1..], k);
      if exists i :: 0 <= i < |puts| - 1 && puts[1..][i].0 == k {
        var i :| 0 <= i < |puts| - 1 && puts[1..][i].0 == k;
        assert puts[i + 1].0 == k;
      }
    }
  }

  /** A top-level document of plain strings with distinct keys flattens to
      exactly its own entries. */
  lemma StringsFlattenToThemselves(es: seq<(string, Yaml)>)
    requires forall i :: 0 <= i < |es| ==> es[i].1.Str?
    requires forall i, j :: 0 <= i < j < |es| ==> es[i].0 != es[j].0
    ensures forall i :: 0 <= i < |es| ==>
              es[i].0 in Apply(map[], Puts(es, 0, None)) && Apply(map[], Puts(es, 0, None))[es[i].0] == es[i].1
    ensures forall k :: k in Apply(map[], Puts(es, 0, None)) ==> exists i :: 0 <= i < |es| && es[i].0 == k
  {
    StringPutsAreEntries(es, 0);
    assert Puts(es, 0, None) == es;
    forall i | 0 <= i < |es| ensures es[i].0 in Apply(map[], es) && Apply(map[], es)[es[i].0] == es[i].1 {
      ApplyLastWins(map[], es, i);
    }
    forall k | k in Apply(map[], es) ensures exists i :: 0 <= i < |es| && es[i].0 == k {
      ApplyDomain(map[], es, k);
    }
  }

  lemma {:induction false} StringPutsAreEntries(es: seq<(string, Yaml)>, from: nat)
    requires from <= |es|
    requires forall i :: 0 <= i < |es| ==> es[i].1.Str?
    ensures Puts(es, from, None) == es[from..]
    decreases |es| - from
  {
    if from < |es| {
      StringPutsAreEntries(es, from + 1);
      assert es[from..] == [es[from]] + es[from + 1..];
    }
  }

  // ---------------------------------------------------------------------
  // Reading the flattened table

  /** String.valueOf(Object): collections print as `[a, b]` and maps as
      `{k=v}`, as AbstractCollection.toString and AbstractMap.toString do. */
  function ValueOf(y: Yaml): string
    decreases y, 1, 0
  {
    match y
    case Null => "null"
    case Str(s) => s
    case Int(i) => DecimalString(i as int)
    case Bool(b) => if b then "true" else "false"
    case Scalar(t) => t
    case Mapping(es) => "{" + EntriesText(es, 0) + "}"
    case List(items) => "[" + ItemsText(items, 0) + "]"
  }

  function EntriesText(es: seq<(string, Yaml)>, from: nat): string
    requires from <= |es|
    decreases Mapping(es), 0, |es| - from
  {
    if from == |es| then ""
    else
      (if from == 0 then "" else ", ") + es[from].0 + "=" + ValueOf(es[from].1)
      + EntriesText(es, from + 1)
  }

  function ItemsText(items: seq<Yaml>, from: nat): string
    requires from <= |items|
    decreases List(items), 0, |items| - from
  {
    if from == |items| then ""
    else (if from == 0 then "" else ", ") + ValueOf(items[from]) + ItemsText(items, from + 1)
  }

  /** getString(key, defaultValue): the default when the key is absent,
      otherwise the stored value's String.valueOf. */
  function GetStringOr(config: map<string, Yaml>, key: string, defaultValue: Option<string>): (r: Option<string>)
    ensures key !in config ==> r == defaultValue
    ensures key in config ==> r == Some(ValueOf(config[key]))
  {
    if key !in config then defaultValue else Some(ValueOf(config[key]))
  }

  /** getString(key): null when the key is absent. */
  function GetString(config: map<string, Yaml>, key: string): (r: Option<string>)
    ensures r.None? <==> key !in config
    ensures key in config ==> r == Some(ValueOf(config[key]))
  {
    GetStringOr(config, key, None)
  }

  /** getInt(key, defaultValue): the default when the key is absent, a stored
      Integer as it is, and otherwise Integer.valueOf of the value's string
      form, which throws NumberFormatException when that is not an int. */
  function GetIntOr(config: map<string, Yaml>, key: string, defaultValue: Option<int32>): (r: Result<Option<int32>, NumberFormatException>)
    ensures key !in config ==> r == Ok(defaultValue)
    ensures key in config && config[key].Int? ==> r == Ok(Some(config[key].i))
    ensures key in config && !config[key].Int? ==>
      (r.Ok? <==> ParseInt(ValueOf(config[key])).Ok?) &&
      (r.Ok? ==> r.value == Some(ParseInt(ValueOf(config[key])).value)) &&
      (r.Err? ==> r.error == NumberFormatException(ValueOf(config[key])))
    ensures key in config ==> r.Ok? ==> r.value.Some?
  {
    if key !in config then Ok(defaultValue)
    else
      match config[key]
      case Int(i) => Ok(Some(i))
      case other =>
        match ParseInt(ValueOf(other))
        case Ok(i) => Ok(Some(i))
        case Err(e) => Err(e)
  }

  /** getInt(key): zero when the key is absent. */
  function GetInt(config: map<string, Yaml>, key: string): (r: Result<int32, NumberFormatException>)
    ensures key !in config ==> r == Ok(0)
    ensures key in config && config[key].Int? ==> r == Ok(config[key].i)
  {
    match GetIntOr(config, key, Some(0))
    case Ok(v) => Ok(v.value)
    case Err(e) => Err(e)
  }

  /** For a present key, getInt reads the same text getString returns:
      whatever was stored, a successful getInt is parseInt of getString. */
  lemma GetIntReadsGetString(config: map<string, Yaml>, key: string)
    requires key in config
    ensures GetInt(config, key).Ok? ==> ParseInt(GetString(config, key).value) == GetInt(config, key)
    ensures GetInt(config, key).Err? <==> ParseInt(GetString(config, key).value).Err?
  {
    if config[key].Int? {
      ParseDecimal(config[key].i);
    }
  }

  /** The decimal text of an int, stored as a string, reads back as that int. */
  lemma GetIntOfDecimal(config: map<string, Yaml>, key: string, i: int32)
    ensures GetInt(config[key := Str(DecimalString(i as int))], key) == Ok(i)
  {
    ParseDecimal(i);
  }

  /** A boolean is never an int. */
  lemma GetIntOfBool(config: map<string, Yaml>, key: string, b: bool)
    ensures GetInt(config[key := Bool(b)], key).Err?
  {
    var s := if b then "true" else "false";
    assert !IsDigit(s[0]);
    assert SignLength(s) == 0;
  }

  /** A nested document flattens as the source's example layout suggests. */
  lemma NestedExample()
    ensures Puts([("a", Mapping([("b", Str("x")), ("c", List([Int(1)]))]))], 0, None)
         == [("a.b", Str("x")), ("a.c", List([Int(1)])), ("a.c[0]", Int(1))]
  {
    assert IndexKey(0) == "[0]";
    assert !IsBlank(Some("a")) by { assert !IsWhitespace(Some("a").value[0]); }
    assert !IsBlank(Some("a.c")) by { assert !IsWhitespace(Some("a.c").value[0]); }
    assert KeyFor(Some("a"), "b") == "a.b" by {
      assert !StartsWith("b", "[") by { assert "b"[..1][0] == 'b'; }
      assert "a" + "." + "b" == "a.b";
    }
    assert KeyFor(Some("a"), "c") == "a.c" by {
      assert !StartsWith("c", "[") by { assert "c"[..1][0] == 'c'; }
      assert "a" + "." + "c" == "a.c";
    }
    assert KeyFor(Some("a.c"), "[0]") == "a.c[0]" by {
      assert StartsWith("[0]", "[");
      assert "a.c" + "[0]" == "a.c[0]";
    }
    assert EntryPuts("b", Str("x"), Some("a")) == [("a.b", Str("x"))];
    assert EntryPuts("[0]", Int(1), Some("a.c")) == [("a.c[0]", Int(1))] by {
      assert StartsWith("[0]", "[");
    }
    assert ItemPuts([Int(1)], 0, "a.c") == [("a.c[0]", Int(1))];
    assert EntryPuts("c", List([Int(1)]), Some("a")) == [("a.c", List([Int(1)])), ("a.c[0]", Int(1))];
    assert Puts([("b", Str("x")), ("c", List([Int(1)]))], 0, Some("a"))
        == [("a.b", Str("x")), ("a.c", List([Int(1)])), ("a.c[0]", Int(1))];
  }
}
