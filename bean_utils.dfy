/** The name-derivation and pattern-choice parts of the bean copying
    helpers: the setter name for a field, whether a class declares a method
    of a given name, and which date pattern a date string is parsed with. */
module BeanUtils {
  import opened Wrappers
  import opened Text

  /** String.substring's failure on a range outside the string. */
  datatype StringIndexOutOfBounds = StringIndexOutOfBounds(begin: int, end: int, length: int)

  /** Calling a method on a null reference. */
  datatype NullPointerException = NullPointerException

  /** The part of java.lang.reflect.Method that is consulted: its name. */
  datatype ReflectedMethod = ReflectedMethod(name: string)

  /** The index where the field's own name starts: a leading underscore is
      skipped. */
  function NameStart(fieldName: string): nat
  {
    if fieldName != [] && fieldName[0] == '_' then 1 else 0
  }

  /** parSetName: "set", the first character after any leading underscore in
      upper case, then the rest. Null and "" give null; "_" alone makes the
      one-character substring fail. */
  function ParSetName(fieldName: Option<string>): (r: Result<Option<string>, StringIndexOutOfBounds>)
    ensures fieldName.None? || fieldName == Some("") ==> r == Ok(None)
    ensures r.Err? <==> fieldName == Some("_")
    ensures r.Ok? && fieldName.Some? && fieldName.value != "" ==>
              r.value.Some? && StartsWith(r.value.value, "set")
  {
    if fieldName.None? || fieldName.value == "" then Ok(None)
    else
      var name := fieldName.value;
      var start := NameStart(name);
      if start + 1 > |name| then
        assert name == [name[0]] == "_";
        Err(StringIndexOutOfBounds(start, start + 1, |name|))
      else
        var setter := "set" + [ToUpper(name[start])] + name[start + 1..];
        assert setter[..3] == "set";
        Ok(Some(setter))
  }

  /** The setter of a field not starting with an underscore. */
  lemma SetterOfPlainName(name: string)
    requires name != [] && name[0] != '_'
    ensures ParSetName(Some(name)) == Ok(Some("set" + [ToUpper(name[0])] + name[1..]))
  {
  }

  /** A leading underscore is dropped and the next character capitalised. */
  lemma SetterOfUnderscoredName(name: string)
    requires |name| >= 2 && name[0] == '_'
    ensures ParSetName(Some(name)) == Ok(Some("set" + [ToUpper(name[1])] + name[2..]))
  {
  }

  /** The setter is three characters longer than the name, less the dropped
      underscore. */
  lemma SetterLength(name: string)
    requires name != [] && name != "_"
    ensures ParSetName(Some(name)).Ok? && ParSetName(Some(name)).value.Some?
    ensures |ParSetName(Some(name)).value.value| == 3 + |name| - NameStart(name)
  {
  }

  /** Recovering a field name from a setter name: drop "set" and lower-case
      the next character. */
  function FieldOfSetter(setter: string): string
    requires |setter| >= 4
  {
    [ToLower(setter[3])] + setter[4..]
  }

  /** The setter name determines the field name, minus any leading
      underscore, whenever that name does not start with a capital. */
  lemma SetterRoundTrip(name: string)
    requires name != [] && name != "_"
    requires !('A' <= name[NameStart(name)] <= 'Z')
    ensures ParSetName(Some(name)).Ok? && ParSetName(Some(name)).value.Some?
    ensures FieldOfSetter(ParSetName(Some(name)).value.value) == name[NameStart(name)..]
  {
    var start := NameStart(name);
    var setter := ParSetName(Some(name)).value.value;
    assert setter[3] == ToUpper(name[start]);
    assert setter[4..] == name[start + 1..];
    assert name[start..] == [name[start]] + name[start + 1..];
  }

  /** checkSetMet: whether some method has exactly the given name. Comparing
      with a null name throws as soon as there is a method to compare with. */
  method CheckSetMet(methods: array<ReflectedMethod>, fieldSetMet: Option<string>)
    returns (r: Result<bool, NullPointerException>)
    ensures fieldSetMet.None? ==> (r.Err? <==> methods.Length > 0)
    ensures fieldSetMet.None? && methods.Length == 0 ==> r == Ok(false)
    ensures fieldSetMet.Some? ==>
              r == Ok(exists i :: 0 <= i < methods.Length && methods[i].name == fieldSetMet.value)
  {
    for i := 0 to methods.Length
      invariant fieldSetMet.None? ==> i == 0
      invariant fieldSetMet.Some? ==> forall j :: 0 <= j < i ==> methods[j].name != fieldSetMet.value
    {
      if fieldSetMet.None? {
        return Err(NullPointerException);
      }
      if fieldSetMet.value == methods[i].name {
        return Ok(true);
      }
    }
    return Ok(false);
  }

  const DateTimePattern: string := "yyyy-MM-dd HH:mm:ss"
  const DatePattern: string := "yyyy-MM-dd"

  /** The pattern parseDate hands to the date parser: with a time whenever
      the first ':' is past the first position, else the date alone. Null
      and "" are not parsed. */
  function DatePatternFor(datestr: Option<string>): (r: Option<string>)
    ensures r.None? <==> datestr.None? || datestr.value == ""
    ensures r.Some? ==> r.value == DateTimePattern || r.value == DatePattern
  {
    if datestr.None? || datestr.value == "" then None
    else if IndexOf(datestr.value, ':') > 0 then Some(DateTimePattern)
    else Some(DatePattern)
  }

  /** The time pattern is chosen exactly for strings that contain a ':' and
      do not start with one. */
  lemma DatePatternChoice(s: string)
    requires s != []
    ensures DatePatternFor(Some(s)) == Some(DateTimePattern) <==> ':' in s && s[0] != ':'
    ensures DatePatternFor(Some(s)) == Some(DatePattern) <==> ':' !in s || s[0] == ':'
  {
    assert DateTimePattern != DatePattern by { assert |DateTimePattern| != |DatePattern|; }
  }

  /** parseDate: the parsing itself, which any failure turns into null, is
      the date library's, and comes in as `parse(pattern, text)`. */
  function ParseDate<D>(datestr: Option<string>, parse: (string, string) -> Option<D>): (r: Option<D>)
    ensures DatePatternFor(datestr).None? ==> r.None?
    ensures DatePatternFor(datestr).Some? ==> r == parse(DatePatternFor(datestr).value, datestr.value)
  {
    match DatePatternFor(datestr)
    case None => None
    case Some(pattern) => parse(pattern, datestr.value)
  }
}
