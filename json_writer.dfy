/**
 * The streaming JSON writer as the dump uses it: the calls it receives,
 * recorded as a sequence of tokens, and the grammar that says when such a
 * sequence spells exactly one JSON value.
 */
module JsonWriter {
  import opened Wrappers
  import opened ColumnTypes

  datatype Token =
    | StartObject
    | EndObject
    | StartArray
    | EndArray
    | PropertyName(name: string)
    | Value(value: DecodedValue)

  /** A JsonTextWriter, seen only through the calls made on it. */
  class Writer {
    var tokens: seq<Token>

    constructor ()
      ensures tokens == []
    {
      tokens := [];
    }

    method WriteStartObject()
      modifies this
      ensures tokens == old(tokens) + [StartObject]
    {
      tokens := tokens + [StartObject];
    }

    method WriteEndObject()
      modifies this
      ensures tokens == old(tokens) + [EndObject]
    {
      tokens := tokens + [EndObject];
    }

    method WriteStartArray()
      modifies this
      ensures tokens == old(tokens) + [StartArray]
    {
      tokens := tokens + [StartArray];
    }

    method WriteEndArray()
      modifies this
      ensures tokens == old(tokens) + [EndArray]
    {
      tokens := tokens + [EndArray];
    }

    method WritePropertyName(name: string)
      modifies this
      ensures tokens == old(tokens) + [PropertyName(name)]
    {
      tokens := tokens + [PropertyName(name)];
    }

    method WriteValue(v: DecodedValue)
      modifies this
      ensures tokens == old(tokens) + [Value(v)]
    {
      tokens := tokens + [Value(v)];
    }
  }

  /*
   * The grammar. A value is a scalar, an object (property names each
   * followed by one value, then EndObject) or an array (values, then
   * EndArray). Each parser returns what is left after what it consumed.
   */

  function ParseValue(ts: seq<Token>): (r: Option<seq<Token>>)
    ensures r.Some? ==> |r.value| < |ts|
    decreases |ts|, 1
  {
    if |ts| == 0 then None
    else match ts[0]
      case Value(_) => Some(ts[1..])
      case StartObject => ParseMembers(ts[1..])
      case StartArray => ParseElements(ts[1..])
      case _ => None
  }

  function ParseMembers(ts: seq<Token>): (r: Option<seq<Token>>)
    ensures r.Some? ==> |r.value| < |ts|
    decreases |ts|, 0
  {
    if |ts| == 0 then None
    else match ts[0]
      case EndObject => Some(ts[1..])
      case PropertyName(_) =>
        (match ParseValue(ts[1..])
         case None => None
         case Some(rest) => ParseMembers(rest))
      case _ => None
  }

  function ParseElements(ts: seq<Token>): (r: Option<seq<Token>>)
    ensures r.Some? ==> |r.value| < |ts|
    decreases |ts|, 2
  {
    if |ts| == 0 then None
    else if ts[0] == EndArray then Some(ts[1..])
    else match ParseValue(ts)
      case None => None
      case Some(rest) => ParseElements(rest)
  }

  /** The tokens spell exactly one JSON value, with nothing left over. */
  predicate WellFormed(ts: seq<Token>)
  {
    ParseValue(ts) == Some([])
  }

  /** How far a token changes the nesting: +1 opens, -1 closes. */
  function Step(t: Token): int
  {
    match t
    case StartObject => 1
    case StartArray => 1
    case EndObject => -1
    case EndArray => -1
    case _ => 0
  }

  /** The nesting left open after the tokens: opened minus closed containers. */
  function Depth(ts: seq<Token>): int
  {
    if |ts| == 0 then 0 else Step(ts[0]) + Depth(ts[1..])
  }

  lemma {:induction false} DepthAppend(a: seq<Token>, b: seq<Token>)
    ensures Depth(a + b) == Depth(a) + Depth(b)
  {
    if |a| > 0 {
      assert (a + b)[0] == a[0];
      assert (a + b)[1..] == a[1..] + b;
      DepthAppend(a[1..], b);
    } else {
      assert a + b == b;
    }
  }

  /** A parsed value closes everything it opens. */
  lemma {:induction false} ValueBalanced(ts: seq<Token>)
    ensures ParseValue(ts).Some? ==> Depth(ts) == Depth(ParseValue(ts).value)
    decreases |ts|, 1
  {
    if |ts| > 0 {
      match ts[0]
      case StartObject => MembersBalanced(ts[1..]);
      case StartArray => ElementsBalanced(ts[1..]);
      case _ =>
    }
  }

  lemma {:induction false} MembersBalanced(ts: seq<Token>)
    ensures ParseMembers(ts).Some? ==> Depth(ts) == Depth(ParseMembers(ts).value) - 1
    decreases |ts|, 0
  {
    if |ts| > 0 && ts[0].PropertyName? {
      ValueBalanced(ts[1..]);
      var r := ParseValue(ts[1..]);
      if r.Some? {
        MembersBalanced(r.value);
      }
    }
  }

  lemma {:induction false} ElementsBalanced(ts: seq<Token>)
    ensures ParseElements(ts).Some? ==> Depth(ts) == Depth(ParseElements(ts).value) - 1
    decreases |ts|, 2
  {
    if |ts| > 0 && ts[0] != EndArray {
      ValueBalanced(ts);
      var r := ParseValue(ts);
      if r.Some? {
        ElementsBalanced(r.value);
      }
    }
  }

  /** A well-formed token stream closes every object and array it opens. */
  lemma WellFormedBalanced(ts: seq<Token>)
    requires WellFormed(ts)
    ensures Depth(ts) == 0
  {
    ValueBalanced(ts);
  }

  /** Parsing does not look past the end of what it consumes. */
  lemma {:induction false} ValueAppend(ts: seq<Token>, b: seq<Token>)
    requires ParseValue(ts).Some?
    ensures ParseValue(ts + b) == Some(ParseValue(ts).value + b)
    decreases |ts|, 1
  {
    assert (ts + b)[1..] == ts[1..] + b;
    match ts[0]
    case StartObject => MembersAppend(ts[1..], b);
    case StartArray => ElementsAppend(ts[1..], b);
    case _ =>
  }

  lemma {:induction false} MembersAppend(ts: seq<Token>, b: seq<Token>)
    requires ParseMembers(ts).Some?
    ensures ParseMembers(ts + b) == Some(ParseMembers(ts).value + b)
    decreases |ts|, 0
  {
    assert (ts + b)[1..] == ts[1..] + b;
    if ts[0].PropertyName? {
      var r := ParseValue(ts[1..]).value;
      ValueAppend(ts[1..], b);
      MembersAppend(r, b);
    }
  }

  lemma {:induction false} ElementsAppend(ts: seq<Token>, b: seq<Token>)
    requires ParseElements(ts).Some?
    ensures ParseElements(ts + b) == Some(ParseElements(ts).value + b)
    decreases |ts|, 2
  {
    assert (ts + b)[1..] == ts[1..] + b;
    if ts[0] != EndArray {
      var r := ParseValue(ts).value;
      ValueAppend(ts, b);
      ElementsAppend(r, b);
    }
  }

  /** A well-formed value followed by anything parses up to exactly that point. */
  lemma ValuePrefix(v: seq<Token>, z: seq<Token>)
    requires WellFormed(v)
    ensures ParseValue(v + z) == Some(z)
  {
    ValueAppend(v, z);
    assert [] + z == z;
  }

  /** Inside an array, a well-formed element is skipped over. */
  lemma ElementPrefix(v: seq<Token>, z: seq<Token>)
    requires WellFormed(v)
    ensures ParseElements(v + z) == ParseElements(z)
  {
    ValuePrefix(v, z);
    assert v[0] != EndArray;
    assert (v + z)[0] == v[0];
  }

  /** Inside an object, a property name followed by a well-formed value is skipped over. */
  lemma MemberPrefix(name: string, v: seq<Token>, z: seq<Token>)
    requires WellFormed(v)
    ensures ParseMembers([PropertyName(name)] + v + z) == ParseMembers(z)
  {
    ValuePrefix(v, z);
    assert ([PropertyName(name)] + v + z)[1..] == v + z;
  }

  /** An object with the one property name, holding a well-formed value. */
  lemma SingletonObject(name: string, v: seq<Token>)
    requires WellFormed(v)
    ensures WellFormed([StartObject, PropertyName(name)] + v + [EndObject])
  {
    var ts := [StartObject, PropertyName(name)] + v + [EndObject];
    assert ts[1..] == [PropertyName(name)] + v + [EndObject];
    MemberPrefix(name, v, [EndObject]);
  }

  /** An array whose elements' tokens are skipped over is well-formed. */
  lemma ArrayOf(elements: seq<Token>)
    requires ParseElements(elements + [EndArray]) == ParseElements([EndArray])
    ensures WellFormed([StartArray] + elements + [EndArray])
  {
    assert ([StartArray] + elements + [EndArray])[1..] == elements + [EndArray];
  }

  /** The parsers fail on the empty stream: nothing written is not a JSON document. */
  lemma EmptyNotWellFormed()
    ensures !WellFormed([])
  {
  }
}
