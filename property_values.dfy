/**
  How the Python client turns property values into strings and back, and
  how it spells an indexed property name. Porto transmits every property
  value as a string; the client reads "true" and "false" back as booleans.
*/
module PropertyValues {
  import opened Wrappers

  /** What `GetProperty`, `GetData` and `Get` return for a value string. */
  datatype PropertyValue = BoolValue(b: bool) | TextValue(text: string)

  /** The Python value handed to `SetProperty`; `PyOther` is any other object, by what `str` gives for it. */
  datatype PyValue = PyBool(b: bool) | PyNone | PyStr(s: string) | PyOther(str: string)

  /** Reading a value string: exactly "true" and "false" become booleans, anything else stays text. */
  function DecodeValue(res: string): (v: PropertyValue)
    ensures v.BoolValue? <==> res == "true" || res == "false"
    ensures v.BoolValue? ==> (v.b <==> res == "true")
    ensures v.TextValue? ==> v.text == res
  {
    if res == "false" then BoolValue(false)
    else if res == "true" then BoolValue(true)
    else TextValue(res)
  }

  /** Writing a value: booleans as "true"/"false", None as the empty string, anything else through `str`. */
  function EncodeValue(v: PyValue): (r: string)
    ensures v.PyBool? ==> DecodeValue(r) == BoolValue(v.b)
    ensures v.PyNone? ==> r == ""
    ensures v.PyStr? ==> r == v.s
    ensures v.PyOther? ==> r == v.str
  {
    match v
    case PyBool(b) => if b then "true" else "false"
    case PyNone => ""
    case PyStr(s) => s
    case PyOther(str) => str
  }

  /** The Python value a decoded property stands for. */
  function AsPy(v: PropertyValue): PyValue
  {
    match v
    case BoolValue(b) => PyBool(b)
    case TextValue(t) => PyStr(t)
  }

  /** A boolean written with `SetProperty` reads back as the same boolean. */
  lemma BoolRoundTrip(b: bool)
    ensures DecodeValue(EncodeValue(PyBool(b))) == BoolValue(b)
  {
  }

  /** A string written with `SetProperty` reads back unchanged exactly when it is not "true" or "false". */
  lemma TextRoundTrip(s: string)
    ensures DecodeValue(EncodeValue(PyStr(s))) == TextValue(s) <==> s != "true" && s != "false"
  {
  }

  /** None is written as the empty string, which reads back as empty text. */
  lemma NoneReadsEmpty()
    ensures DecodeValue(EncodeValue(PyNone)) == TextValue("")
  {
  }

  /** Every value string the server sends survives being read and written back. */
  lemma DecodeThenEncode(res: string)
    ensures EncodeValue(AsPy(DecodeValue(res))) == res
  {
  }

  /** The property argument: a plain name or a `(name, key)` tuple. */
  datatype PropertyArg = Name(prop: string) | Pair(prop: string, key: string)

  /**
    The property name sent in the request: a tuple is written `name[key]`
    and wins over an `index` argument; otherwise a given index is written
    `name[index]`; otherwise the plain name.
  */
  function PropertyName(prop: PropertyArg, index: Option<string>): (r: string)
    ensures |r| >= |prop.prop| && r[..|prop.prop|] == prop.prop
    ensures r == prop.prop <==> prop.Name? && index.None?
    ensures prop.Pair? ==> r[|prop.prop|] == '[' && r[|r| - 1] == ']' && r[|prop.prop| + 1..|r| - 1] == prop.key
    ensures prop.Name? && index.Some? ==>
      r[|prop.prop|] == '[' && r[|r| - 1] == ']' && r[|prop.prop| + 1..|r| - 1] == index.value
  {
    match prop
    case Pair(p, key) => p + "[" + key + "]"
    case Name(p) =>
      match index
      case Some(i) => p + "[" + i + "]"
      case None => p
  }

  /** The position of the first `[` in a name, if any. */
  function FirstBracket(name: string): (r: Option<nat>)
    ensures r.Some? ==> r.value < |name| && name[r.value] == '['
    ensures r.Some? ==> forall i :: 0 <= i < r.value ==> name[i] != '['
    ensures r.None? ==> forall i :: 0 <= i < |name| ==> name[i] != '['
  {
    if name == [] then None
    else if name[0] == '[' then Some(0)
    else match FirstBracket(name[1..])
      case None => None
      case Some(k) => Some(k + 1)
  }

  /**
    Reading a property name back into the base name and the index: the
    text before the first `[`, and what lies between it and a final `]`.
  */
  function ParsePropertyName(name: string): (string, Option<string>)
  {
    match FirstBracket(name)
    case Some(k) =>
      if name[|name| - 1] == ']' && k < |name| - 1 then (name[..k], Some(name[k + 1..|name| - 1]))
      else (name, None)
    case None => (name, None)
  }

  /** The first `[` of a name without brackets, followed by more text, is the one after the name. */
  lemma {:induction false} FirstBracketAfter(p: string, rest: string)
    requires forall i :: 0 <= i < |p| ==> p[i] != '['
    ensures FirstBracket(p + "[" + rest) == Some(|p|)
  {
    if p != [] {
      assert (p + "[" + rest)[1..] == p[1..] + "[" + rest;
      FirstBracketAfter(p[1..], rest);
    }
  }

  /** A name composed with an index parses back into that name and index, when the name has no `[`. */
  lemma PropertyNameRoundTrip(p: string, index: Option<string>)
    requires forall i :: 0 <= i < |p| ==> p[i] != '['
    ensures ParsePropertyName(PropertyName(Name(p), index)) == (p, index)
  {
    match index
    case Some(i) =>
      var name := p + "[" + i + "]";
      assert name == p + "[" + (i + "]");
      FirstBracketAfter(p, i + "]");
      assert name[..|p|] == p;
      assert name[|p| + 1..|name| - 1] == i;
    case None =>
  }

  /** The tuple form and the index form name the same property. */
  lemma PairIsIndexed(p: string, key: string, index: Option<string>)
    ensures PropertyName(Pair(p, key), index) == PropertyName(Name(p), Some(key))
  {
  }
}
