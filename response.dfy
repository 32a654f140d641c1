/**
 * XMLRPCResult: the decoder. A parsed response is searched for a fault; without one, every
 * param element contributes the decoding of its first value child to a list of result values,
 * which typed getters then read by position.
 *
 * The functions here say what each step computes; the class below computes the same with the
 * loops of the original and is proved equal to them.
 */
module Response {
  import opened Wrappers
  import opened Decimal
  import Base64
  import DateTime
  import opened Xml
  import opened Values
  import opened Exceptions

  const VALUE := "value"
  const NAME := "name"
  const MEMBER := "member"
  const FAULT := "fault"
  const PARAM := "param"

  /** The child names the value decoder has a case for. */
  predicate Recognised(name: string)
  {
    name in {"string", "int", "i4", "double", "boolean", "base64", "struct", "array", "dateTime.iso8601"}
  }

  /** parseValue: the decoding of the first child whose name has a case; None when no child has one. */
  function DecodeValue(v: Node): Result<Option<Value>, Error>
  {
    match v
    case Text(_) => Success(None)
    case Element(_, cs) => DecodeFirst(cs)
  }

  function DecodeFirst(cs: seq<Node>): Result<Option<Value>, Error>
  {
    if cs == [] then Success(None)
    else if Recognised(NodeName(cs[0])) then DecodeChild(cs[0])
    else DecodeFirst(cs[1..])
  }

  /** One case of the switch in parseValue, applied to a child with a recognised name. */
  function DecodeChild(c: Node): Result<Option<Value>, Error>
    requires Recognised(NodeName(c))
  {
    var text := TextContent(c);
    if c.name == "string" then Success(Some(Str(text)))
    else if c.name == "int" || c.name == "i4" then
      match ParseInt(text)
      case None => Failure(NumberFormat(text))
      case Some(i) => Success(Some(Int(i)))
    else if c.name == "double" then Success(Some(Real(text)))
    else if c.name == "boolean" then Success(Some(Bool(text == "1")))
    else if c.name == "base64" then
      match Base64.Decode(text)
      case None => Failure(Base64Format(text))
      case Some(bytes) => Success(Some(Bytes(bytes)))
    else if c.name == "struct" then
      var fields :- DecodeStructFrom(c.children, map[]);
      Success(Some(Struct(fields)))
    else if c.name == "array" then
      var items :- DecodeArray(c.children);
      Success(Some(Array(items)))
    else
      match DateTime.Parse(text)
      case None => Failure(DateParse(text))
      case Some(m) => Success(Some(Date(m)))
  }

  /**
   * parseStruct, from the i-th child on, with the map built so far: each member child is decoded
   * and put into the map when it has both a name and a value.
   */
  function DecodeStructFrom(cs: seq<Node>, acc: map<string, Value>): Result<map<string, Value>, Error>
  {
    if cs == [] then Success(acc)
    else
      match cs[0]
      case Text(_) => DecodeStructFrom(cs[1..], acc)
      case Element(tag, kids) =>
        if tag != MEMBER then DecodeStructFrom(cs[1..], acc)
        else
          var m :- DecodeMemberFrom(kids, None, None);
          DecodeStructFrom(cs[1..], Put(acc, m))
  }

  /** HashMap.put when both the name and the value of a member are present. */
  function Put(acc: map<string, Value>, m: (Option<string>, Option<Value>)): map<string, Value>
  {
    if m.0.Some? && m.1.Some? then acc[m.0.value := m.1.value] else acc
  }

  /**
   * The inner loop of parseStruct: a name child sets the name to its text, a value child sets the
   * value to its decoding (which may be None); later children overwrite earlier ones.
   */
  function DecodeMemberFrom(cs: seq<Node>, name: Option<string>, value: Option<Value>): Result<(Option<string>, Option<Value>), Error>
  {
    if cs == [] then Success((name, value))
    else
      var name' := if NodeName(cs[0]) == NAME then Some(TextContent(cs[0])) else name;
      if NodeName(cs[0]) == VALUE then
        var v :- DecodeValue(cs[0]);
        DecodeMemberFrom(cs[1..], name', v)
      else DecodeMemberFrom(cs[1..], name', value)
  }

  /**
   * parseArray: the value children of the first child node, whatever that node is; a text node
   * has no children, so an array whose first child is white space decodes empty.
   */
  function DecodeArray(cs: seq<Node>): Result<seq<Option<Value>>, Error>
  {
    if cs == [] then Success([])
    else
      match cs[0]
      case Text(_) => Success([])
      case Element(_, items) => DecodeArrayFrom(items, [])
  }

  /** The loop of parseArray: every value child is decoded and added, None included. */
  function DecodeArrayFrom(cs: seq<Node>, acc: seq<Option<Value>>): Result<seq<Option<Value>>, Error>
  {
    if cs == [] then Success(acc)
    else if NodeName(cs[0]) == VALUE then
      var v :- DecodeValue(cs[0]);
      DecodeArrayFrom(cs[1..], acc + [v])
    else DecodeArrayFrom(cs[1..], acc)
  }

  /** What parse adds to the value list, and the exception it ends with, if any. */
  datatype Outcome = Outcome(added: seq<Value>, error: Option<Error>)

  /**
   * The exception a fault raises, from the decoding of its first value: a struct gives its
   * faultCode and faultString; anything else gives "Undefined fault response" with code 0.
   */
  function FaultError(v: Option<Value>): Error
  {
    match v
    case Some(Struct(fields)) =>
      if "faultCode" !in fields || !fields["faultCode"].Int? then BadFaultPayload
      else if "faultString" in fields && !fields["faultString"].Str? then BadFaultPayload
      else
        var msg := if "faultString" in fields then Some(fields["faultString"].s) else None;
        Rpc(WithFault(fields["faultCode"].i, msg))
    case _ => Rpc(WithMessage(Some("Undefined fault response")))
  }

  /** The first node named tag among cs: the inner loop of parse stops at it. */
  function FirstNamed(cs: seq<Node>, tag: string): (r: Option<Node>)
    ensures r.Some? ==> NodeName(r.value) == tag && r.value in cs
  {
    if cs == [] then None
    else if NodeName(cs[0]) == tag then Some(cs[0])
    else FirstNamed(cs[1..], tag)
  }

  /** What one param contributes: the decoding of its first value child, None without one. */
  function Contribution(p: Node): Result<Option<Value>, Error>
  {
    match FirstNamed(Kids(p), VALUE)
    case None => Success(None)
    case Some(vn) => DecodeValue(vn)
  }

  /** The params loop of parse, from the i-th param on, with the values added so far. */
  function ParamsFrom(ps: seq<Node>, acc: seq<Value>): Outcome
  {
    if ps == [] then Outcome(acc, None)
    else
      match Contribution(ps[0])
      case Failure(e) => Outcome(acc, Some(e))
      case Success(None) => ParamsFrom(ps[1..], acc)
      case Success(Some(v)) => ParamsFrom(ps[1..], acc + [v])
  }

  /** parse: fault handling first; params only when there is no fault element at all. */
  function ParseResponse(root: Node): Outcome
  {
    var faults := ElementsByTagName(root, FAULT);
    if |faults| != 0 then Outcome([], FaultOutcome(faults[0]))
    else ParamsFrom(ElementsByTagName(root, PARAM), [])
  }

  /** The fault branch of parse: the first value under the fault element, decoded and turned into the error. */
  function FaultOutcome(fault: Node): Option<Error>
  {
    var vals := ElementsByTagName(fault, VALUE);
    if |vals| == 0 then None
    else
      match DecodeValue(vals[0])
      case Failure(e) => Some(e)
      case Success(v) => Some(FaultError(v))
  }

  // ----- Properties of the value decoder -----

  /** The first child with a recognised name decides the value; text nodes and other tags before it are skipped. */
  lemma {:induction false} FirstRecognisedWins(cs: seq<Node>, i: nat)
    requires i < |cs| && Recognised(NodeName(cs[i]))
    requires forall k :: 0 <= k < i ==> !Recognised(NodeName(cs[k]))
    ensures DecodeFirst(cs) == DecodeChild(cs[i])
    decreases i
  {
    if i > 0 {
      FirstRecognisedWins(cs[1..], i - 1);
    }
  }

  /** Without a recognised child there is no value. */
  lemma {:induction false} NoneRecognised(cs: seq<Node>)
    requires forall k :: 0 <= k < |cs| ==> !Recognised(NodeName(cs[k]))
    ensures DecodeFirst(cs) == Success(None)
  {
    if cs != [] {
      NoneRecognised(cs[1..]);
    }
  }

  // One lemma per case of the switch: what a child with that name decodes to.

  lemma ChildString(cs: seq<Node>)
    ensures DecodeChild(Element("string", cs)) == Success(Some(Str(TextContentAll(cs))))
  {
  }

  lemma ChildInt(tag: string, cs: seq<Node>)
    requires tag == "int" || tag == "i4"
    ensures var t := TextContentAll(cs);
      DecodeChild(Element(tag, cs)) == if ParseInt(t).Some? then Success(Some(Int(ParseInt(t).value))) else Failure(NumberFormat(t))
  {
  }

  lemma ChildDouble(cs: seq<Node>)
    ensures DecodeChild(Element("double", cs)) == Success(Some(Real(TextContentAll(cs))))
  {
  }

  lemma ChildBoolean(cs: seq<Node>)
    ensures DecodeChild(Element("boolean", cs)) == Success(Some(Bool(TextContentAll(cs) == "1")))
  {
  }

  lemma ChildBase64(cs: seq<Node>)
    ensures var t := TextContentAll(cs);
      DecodeChild(Element("base64", cs)) == if Base64.Decode(t).Some? then Success(Some(Bytes(Base64.Decode(t).value))) else Failure(Base64Format(t))
  {
  }

  lemma ChildStruct(cs: seq<Node>)
    ensures DecodeChild(Element("struct", cs)) ==
      if DecodeStructFrom(cs, map[]).Success? then Success(Some(Struct(DecodeStructFrom(cs, map[]).value))) else Failure(DecodeStructFrom(cs, map[]).error)
  {
  }

  lemma ChildArray(cs: seq<Node>)
    ensures DecodeChild(Element("array", cs)) ==
      if DecodeArray(cs).Success? then Success(Some(Array(DecodeArray(cs).value))) else Failure(DecodeArray(cs).error)
  {
  }

  lemma ChildDate(cs: seq<Node>)
    ensures var t := TextContentAll(cs);
      DecodeChild(Element("dateTime.iso8601", cs)) == if DateTime.Parse(t).Some? then Success(Some(Date(DateTime.Parse(t).value))) else Failure(DateParse(t))
  {
  }

  /** int and i4 are the same case: both read the text as a signed 32-bit decimal, and read back Integer.toString. */
  lemma IntAliases(cs: seq<Node>, i: int32)
    ensures DecodeChild(Element("int", cs)) == DecodeChild(Element("i4", cs))
    ensures TextContentAll(cs) == IntToString(i) ==> DecodeChild(Element("i4", cs)) == Success(Some(Int(i)))
  {
    if TextContentAll(cs) == IntToString(i) {
      ParseIntToString(i);
    }
  }

  /** A boolean is true exactly when its text is "1"; any other text, even "true", is false. */
  lemma BooleanText(cs: seq<Node>)
    ensures DecodeChild(Element("boolean", cs)).Success?
    ensures DecodeChild(Element("boolean", cs)).value == Some(Bool(true)) <==> TextContentAll(cs) == "1"
  {
  }

  // ----- Properties of the struct decoder -----

  /** Folding puts over pairs, the later pair winning. */
  function MapOf(acc: map<string, Value>, ps: seq<(string, Value)>): map<string, Value>
    decreases |ps|
  {
    if ps == [] then acc else MapOf(acc[ps[0].0 := ps[0].1], ps[1..])
  }

  /** The names and values of the members a struct keeps, in document order. */
  function MemberPairs(cs: seq<Node>): Result<seq<(string, Value)>, Error>
  {
    if cs == [] then Success([])
    else
      match cs[0]
      case Text(_) => MemberPairs(cs[1..])
      case Element(tag, kids) =>
        if tag != MEMBER then MemberPairs(cs[1..])
        else
          var m :- DecodeMemberFrom(kids, None, None);
          var rest :- MemberPairs(cs[1..]);
          Success((if m.0.Some? && m.1.Some? then [(m.0.value, m.1.value)] else []) + rest)
  }

  /** A struct is the map of its kept members, and fails with the first member that fails. */
  lemma {:induction false} StructIsMapOf(cs: seq<Node>, acc: map<string, Value>)
    ensures DecodeStructFrom(cs, acc) ==
      match MemberPairs(cs)
      case Failure(e) => Failure(e)
      case Success(ps) => Success(MapOf(acc, ps))
  {
    if cs != [] {
      match cs[0]
      case Text(_) => StructIsMapOf(cs[1..], acc);
      case Element(tag, kids) =>
        if tag != MEMBER {
          StructIsMapOf(cs[1..], acc);
        } else {
          var m := DecodeMemberFrom(kids, None, None);
          if m.Success? {
            StructIsMapOf(cs[1..], Put(acc, m.value));
            var rest := MemberPairs(cs[1..]);
            if rest.Success? && m.value.0.Some? && m.value.1.Some? {
              var p := (m.value.0.value, m.value.1.value);
              assert ([p] + rest.value)[0] == p && ([p] + rest.value)[1..] == rest.value;
            } else if rest.Success? {
              assert [] + rest.value == rest.value;
            }
          }
        }
    }
  }

  /** The keys of the map are those of the start map and of the pairs. */
  lemma {:induction false} MapOfKeys(acc: map<string, Value>, ps: seq<(string, Value)>)
    ensures MapOf(acc, ps).Keys == acc.Keys + set k | 0 <= k < |ps| :: ps[k].0
    decreases |ps|
  {
    if ps != [] {
      MapOfKeys(acc[ps[0].0 := ps[0].1], ps[1..]);
      var rest := set k | 0 <= k < |ps[1..]| :: ps[1..][k].0;
      var all := set k | 0 <= k < |ps| :: ps[k].0;
      assert all == {ps[0].0} + rest by {
        forall x | x in all ensures x in {ps[0].0} + rest {
          var k :| 0 <= k < |ps| && ps[k].0 == x;
          if k > 0 { assert ps[1..][k - 1].0 == x; }
        }
        forall x | x in rest ensures x in all {
          var k :| 0 <= k < |ps[1..]| && ps[1..][k].0 == x;
          assert ps[k + 1].0 == x;
        }
      }
    }
  }

  /** A name that a later pair does not repeat keeps the value of its last pair. */
  lemma {:induction false} MapOfLastWins(acc: map<string, Value>, ps: seq<(string, Value)>, i: nat)
    requires i < |ps|
    requires forall j :: i < j < |ps| ==> ps[j].0 != ps[i].0
    ensures ps[i].0 in MapOf(acc, ps) && MapOf(acc, ps)[ps[i].0] == ps[i].1
    decreases |ps|
  {
    if i == 0 {
      MapOfUntouched(acc[ps[0].0 := ps[0].1], ps[1..], ps[0].0);
    } else {
      MapOfLastWins(acc[ps[0].0 := ps[0].1], ps[1..], i - 1);
    }
  }

  /** A name no pair mentions keeps its value from the start map. */
  lemma {:induction false} MapOfUntouched(acc: map<string, Value>, ps: seq<(string, Value)>, key: string)
    requires forall j :: 0 <= j < |ps| ==> ps[j].0 != key
    ensures key in MapOf(acc, ps) <==> key in acc
    ensures key in acc ==> MapOf(acc, ps)[key] == acc[key]
    decreases |ps|
  {
    if ps != [] {
      MapOfUntouched(acc[ps[0].0 := ps[0].1], ps[1..], key);
    }
  }

  /** Two neighbouring members with different names can be swapped without changing the struct. */
  lemma MapOfSwap(acc: map<string, Value>, a: seq<(string, Value)>, p: (string, Value), q: (string, Value), b: seq<(string, Value)>)
    requires p.0 != q.0
    ensures MapOf(acc, a + [p, q] + b) == MapOf(acc, a + [q, p] + b)
  {
    MapOfConcat(acc, a, [p, q] + b);
    MapOfConcat(acc, a, [q, p] + b);
    assert a + [p, q] + b == a + ([p, q] + b);
    assert a + [q, p] + b == a + ([q, p] + b);
    var m := MapOf(acc, a);
    assert ([p, q] + b)[0] == p && ([p, q] + b)[1..] == [q] + b && ([q] + b)[0] == q && ([q] + b)[1..] == b;
    assert ([q, p] + b)[0] == q && ([q, p] + b)[1..] == [p] + b && ([p] + b)[0] == p && ([p] + b)[1..] == b;
    assert m[p.0 := p.1][q.0 := q.1] == m[q.0 := q.1][p.0 := p.1];
  }

  lemma {:induction false} MapOfConcat(acc: map<string, Value>, a: seq<(string, Value)>, b: seq<(string, Value)>)
    ensures MapOf(acc, a + b) == MapOf(MapOf(acc, a), b)
    decreases |a|
  {
    if a == [] {
      assert a + b == b;
    } else {
      assert (a + b)[0] == a[0] && (a + b)[1..] == a[1..] + b;
      MapOfConcat(acc[a[0].0 := a[0].1], a[1..], b);
    }
  }

  /** The value child that a member scan ends with: the last one. */
  function LastNamed(cs: seq<Node>, tag: string): (r: Option<Node>)
    ensures r.Some? ==> NodeName(r.value) == tag && r.value in cs
  {
    if cs == [] then None
    else if NodeName(cs[|cs| - 1]) == tag then Some(cs[|cs| - 1])
    else LastNamed(cs[..|cs| - 1], tag)
  }

  /**
   * Within a member, the last name child gives the name and the last value child the value
   * (its decoding, None included); without one, the one passed in stays.
   */
  lemma {:induction false} MemberLastWins(cs: seq<Node>, name: Option<string>, value: Option<Value>)
    requires DecodeMemberFrom(cs, name, value).Success?
    ensures DecodeMemberFrom(cs, name, value).value.0 ==
      match LastNamed(cs, NAME) case None => name case Some(c) => Some(TextContent(c))
    ensures LastNamed(cs, VALUE).None? ==> DecodeMemberFrom(cs, name, value).value.1 == value
    ensures LastNamed(cs, VALUE).Some? ==> DecodeValue(LastNamed(cs, VALUE).value) == Success(DecodeMemberFrom(cs, name, value).value.1)
    decreases |cs|
  {
    if cs != [] {
      var last := cs[|cs| - 1];
      var init := cs[..|cs| - 1];
      assert cs == init + [last];
      MemberSplit(init, last, name, value);
      var m := DecodeMemberFrom(init, name, value);
      MemberLastWins(init, name, value);
      MemberOne(last, m.value.0, m.value.1);
    }
  }

  /** One member child: a name child sets the name, a value child sets the value. */
  lemma MemberOne(c: Node, name: Option<string>, value: Option<Value>)
    ensures DecodeMemberFrom([c], name, value) ==
      if NodeName(c) == VALUE then
        match DecodeValue(c)
        case Failure(e) => Failure(e)
        case Success(v) => Success((name, v))
      else Success((if NodeName(c) == NAME then Some(TextContent(c)) else name, value))
  {
    assert [c][0] == c && [c][1..] == [];
  }

  /** Scanning init and then one more child. */
  lemma {:induction false} MemberSplit(init: seq<Node>, last: Node, name: Option<string>, value: Option<Value>)
    ensures DecodeMemberFrom(init + [last], name, value) ==
      match DecodeMemberFrom(init, name, value)
      case Failure(e) => Failure(e)
      case Success(m) => DecodeMemberFrom([last], m.0, m.1)
    decreases |init|
  {
    if init == [] {
      assert init + [last] == [last];
    } else {
      var cs := init + [last];
      assert cs[0] == init[0] && cs[1..] == init[1..] + [last];
      var name' := if NodeName(init[0]) == NAME then Some(TextContent(init[0])) else name;
      if NodeName(init[0]) == VALUE {
        if DecodeValue(init[0]).Success? {
          MemberSplit(init[1..], last, name', DecodeValue(init[0]).value);
        }
      } else {
        MemberSplit(init[1..], last, name', value);
      }
    }
  }

  // ----- Properties of the array decoder -----

  /** The children named value, in order. */
  function ValueChildren(cs: seq<Node>): (r: seq<Node>)
    ensures |r| <= |cs|
  {
    if cs == [] then []
    else if NodeName(cs[0]) == VALUE then [cs[0]] + ValueChildren(cs[1..])
    else ValueChildren(cs[1..])
  }

  /** Every node of vs decodes without an error. */
  predicate AllDecode(vs: seq<Node>)
  {
    forall j :: 0 <= j < |vs| ==> DecodeValue(vs[j]).Success?
  }

  lemma AllDecodeCons(vs: seq<Node>)
    requires vs != []
    ensures AllDecode(vs) <==> DecodeValue(vs[0]).Success? && AllDecode(vs[1..])
  {
    if DecodeValue(vs[0]).Success? && AllDecode(vs[1..]) {
      forall j | 0 <= j < |vs| ensures DecodeValue(vs[j]).Success? {
        if j > 0 {
          assert vs[j] == vs[1..][j - 1];
        }
      }
    }
  }

  /** An array decodes exactly when every one of its value children decodes. */
  lemma {:induction false} ArrayFails(cs: seq<Node>, acc: seq<Option<Value>>)
    ensures DecodeArrayFrom(cs, acc).Success? <==> AllDecode(ValueChildren(cs))
  {
    if cs != [] {
      var vs := ValueChildren(cs);
      if NodeName(cs[0]) == VALUE {
        assert vs[0] == cs[0] && vs[1..] == ValueChildren(cs[1..]);
        AllDecodeCons(vs);
        if DecodeValue(cs[0]).Success? {
          var v := DecodeValue(cs[0]).value;
          assert DecodeArrayFrom(cs, acc) == DecodeArrayFrom(cs[1..], acc + [v]);
          ArrayFails(cs[1..], acc + [v]);
        }
      } else {
        ArrayFails(cs[1..], acc);
      }
    }
  }

  /**
   * An array that decodes holds one item per value child, in order, each the decoding of that
   * child (None included), after the items already added.
   */
  lemma {:induction false} ArrayValues(cs: seq<Node>, acc: seq<Option<Value>>)
    ensures DecodeArrayFrom(cs, acc).Success? ==>
      var r := DecodeArrayFrom(cs, acc).value;
      |r| == |acc| + |ValueChildren(cs)| && r[..|acc|] == acc &&
      forall j :: 0 <= j < |ValueChildren(cs)| ==> DecodeValue(ValueChildren(cs)[j]) == Success(r[|acc| + j])
  {
    if cs != [] {
      var vs := ValueChildren(cs);
      if NodeName(cs[0]) == VALUE {
        assert vs[0] == cs[0] && vs[1..] == ValueChildren(cs[1..]);
        if DecodeValue(cs[0]).Success? {
          var v := DecodeValue(cs[0]).value;
          ArrayValues(cs[1..], acc + [v]);
          assert forall j :: 1 <= j < |vs| ==> vs[j] == vs[1..][j - 1];
          if DecodeArrayFrom(cs, acc).Success? {
            var r := DecodeArrayFrom(cs, acc).value;
            assert r[..|acc| + 1] == acc + [v];
            assert r[..|acc|] == (acc + [v])[..|acc|];
          }
        }
      } else {
        ArrayValues(cs[1..], acc);
      }
    }
  }

  /** An array element without children is the empty list. */
  lemma EmptyArray()
    ensures DecodeChild(Element("array", [])) == Success(Some(Array([])))
  {
  }

  /** A pretty-printed array: the white space before data is the first child, so no item is read. */
  lemma PrettyPrintedArray(ws: string, items: seq<Node>)
    ensures DecodeChild(Element("array", [Text(ws), Element("data", items)])) == Success(Some(Array([])))
  {
  }

  // ----- Properties of parse -----

  /** The values the params contribute, in order. */
  function Present(ps: seq<Node>): (r: seq<Value>)
    ensures |r| <= |ps|
  {
    if ps == [] then []
    else Contributed(ps[0]) + Present(ps[1..])
  }

  /** The value one param adds to the list: none when it contributes None. */
  function Contributed(p: Node): (r: seq<Value>)
    ensures |r| <= 1
  {
    match Contribution(p) case Success(Some(v)) => [v] case _ => []
  }

  /** When every param decodes, parse adds exactly the present values, in order, and ends normally. */
  lemma {:induction false} ParamsAllDecode(ps: seq<Node>, acc: seq<Value>)
    requires forall k :: 0 <= k < |ps| ==> Contribution(ps[k]).Success?
    ensures ParamsFrom(ps, acc) == Outcome(acc + Present(ps), None)
  {
    if ps == [] {
      assert acc + [] == acc;
    } else {
      var pre := Contributed(ps[0]);
      var tail := ps[1..];
      assert forall k :: 0 <= k < |tail| ==> tail[k] == ps[k + 1];
      ParamsAllDecode(tail, acc + pre);
      ParamsCons(ps, acc);
      Associative(acc, pre, Present(tail));
    }
  }

  /** When the k-th param is the first that fails, parse ends with its error, keeping what came before. */
  lemma {:induction false} ParamsFirstFailure(ps: seq<Node>, acc: seq<Value>, k: nat)
    requires k < |ps| && Contribution(ps[k]).Failure?
    requires forall j :: 0 <= j < k ==> Contribution(ps[j]).Success?
    ensures ParamsFrom(ps, acc) == Outcome(acc + Present(ps[..k]), Some(Contribution(ps[k]).error))
    decreases k
  {
    if k == 0 {
      assert ps[..0] == [] && acc + [] == acc;
    } else {
      var pre := Contributed(ps[0]);
      var tail := ps[1..];
      var e := Contribution(ps[k]).error;
      assert tail[k - 1] == ps[k];
      assert forall j :: 0 <= j < k - 1 ==> tail[j] == ps[j + 1];
      ParamsFirstFailure(tail, acc + pre, k - 1);
      var before := ps[..k];
      var rest := Present(tail[..k - 1]);
      assert before[1..] == tail[..k - 1] && before[0] == ps[0];
      assert Present(before) == pre + rest;
      ParamsCons(ps, acc);
      Associative(acc, pre, rest);
    }
  }

  lemma Associative<T>(a: seq<T>, b: seq<T>, c: seq<T>)
    ensures a + b + c == a + (b + c)
  {
  }

  lemma ParamsCons(ps: seq<Node>, acc: seq<Value>)
    requires ps != [] && Contribution(ps[0]).Success?
    ensures ParamsFrom(ps, acc) == ParamsFrom(ps[1..], acc + Contributed(ps[0]))
  {
    if Contribution(ps[0]).value.None? {
      assert acc + [] == acc;
    }
  }

  /** One step of the params loop: the i-th param's contribution decides how it goes on. */
  lemma ParamsStep(ps: seq<Node>, i: nat, acc: seq<Value>)
    requires i < |ps|
    ensures var c := Contribution(ps[i]);
      ParamsFrom(ps[i..], acc) ==
        if c.Failure? then Outcome(acc, Some(c.error))
        else if c.value.None? then ParamsFrom(ps[i + 1..], acc)
        else ParamsFrom(ps[i + 1..], acc + [c.value.value])
  {
    assert ps[i..][0] == ps[i] && ps[i..][1..] == ps[i + 1..];
  }

  /** parse never adds more values than there are params, and never drops what was already added. */
  lemma {:induction false} ParamsCount(ps: seq<Node>, acc: seq<Value>)
    ensures var r := ParamsFrom(ps, acc).added; |acc| <= |r| <= |acc| + |ps| && r[..|acc|] == acc
  {
    if ps != [] {
      match Contribution(ps[0])
      case Failure(_) =>
      case Success(None) => ParamsCount(ps[1..], acc);
      case Success(Some(v)) =>
        ParamsCount(ps[1..], acc + [v]);
        var r := ParamsFrom(ps, acc).added;
        assert r[..|acc|] == (acc + [v])[..|acc|];
    } else {
      assert acc[..|acc|] == acc;
    }
  }

  /** With any fault element, params are ignored: nothing is added. */
  lemma FaultIgnoresParams(root: Node)
    requires |ElementsByTagName(root, FAULT)| != 0
    ensures ParseResponse(root).added == []
    ensures |ElementsByTagName(ElementsByTagName(root, FAULT)[0], VALUE)| == 0 <==> ParseResponse(root).error == None
  {
  }

  /** A well-formed fault struct raises an exception carrying its code and message. */
  lemma FaultStruct(fields: map<string, Value>, code: int32, msg: string)
    requires "faultCode" in fields && fields["faultCode"] == Int(code)
    requires "faultString" in fields && fields["faultString"] == Str(msg)
    ensures FaultError(Some(Struct(fields))).Rpc?
    ensures FaultError(Some(Struct(fields))).exception.GetFaultCode() == code
    ensures FaultError(Some(Struct(fields))).exception.message == Some(msg)
  {
  }

  /** A fault whose value is not a struct: "Undefined fault response", code 0. */
  lemma FaultNotStruct(v: Option<Value>)
    requires !(v.Some? && v.value.Struct?)
    ensures FaultError(v) == Rpc(WithMessage(Some("Undefined fault response")))
    ensures FaultError(v).exception.GetFaultCode() == 0
  {
  }

  /** A fault struct without an int faultCode is the null-unboxing or cast failure. */
  lemma FaultWithoutCode(fields: map<string, Value>)
    requires "faultCode" !in fields || !fields["faultCode"].Int?
    ensures FaultError(Some(Struct(fields))) == BadFaultPayload
  {
  }

  /** A value element whose only child is a scalar element holding only the text t. */
  function ScalarValue(tag: string, t: string): Node
  {
    Element(VALUE, [Element(tag, [Text(t)])])
  }

  /** A member element with a name child and then a value child. */
  function MemberNode(key: string, value: Node): Node
  {
    Element(MEMBER, [Element(NAME, [Text(key)]), value])
  }

  lemma ScalarText(tag: string, t: string)
    requires Recognised(tag)
    ensures DecodeValue(ScalarValue(tag, t)) == DecodeChild(Element(tag, [Text(t)]))
    ensures TextContent(Element(tag, [Text(t)])) == t
  {
    assert TextContentAll([Text(t)]) == t + "";
  }

  lemma IntValue(tag: string, t: string, i: int32)
    requires (tag == "int" || tag == "i4") && ParseInt(t) == Some(i)
    ensures DecodeValue(ScalarValue(tag, t)) == Success(Some(Int(i)))
  {
    ScalarText(tag, t);
  }

  lemma StringValue(t: string)
    ensures DecodeValue(ScalarValue("string", t)) == Success(Some(Str(t)))
  {
    ScalarText("string", t);
  }

  lemma StructValue(sv: Node, st: Node, ms: seq<Node>, fields: map<string, Value>)
    requires st == Element("struct", ms) && sv == Element(VALUE, [st])
    requires DecodeStructFrom(ms, map[]) == Success(fields)
    ensures DecodeValue(sv) == Success(Some(Struct(fields)))
  {
    assert Recognised(NodeName(st));
    assert DecodeChild(st) == Success(Some(Struct(fields)));
    assert [st][0] == st;
  }

  lemma MemberNodeDecodes(key: string, value: Node, v: Value)
    requires value.Element? && value.name == VALUE && DecodeValue(value) == Success(Some(v))
    ensures DecodeMemberFrom(MemberNode(key, value).children, None, None) == Success((Some(key), Some(v)))
  {
    var cs := MemberNode(key, value).children;
    assert cs[1..] == [value] && [value][1..] == [];
    assert TextContent(cs[0]) == key by {
      assert TextContentAll([Text(key)]) == key + "";
    }
    assert DecodeMemberFrom(cs, None, None) == DecodeMemberFrom([value], Some(key), None);
    assert DecodeMemberFrom([value], Some(key), None) == DecodeMemberFrom([], Some(key), Some(v));
  }

  lemma TwoMembers(m1: Node, m2: Node, k1: string, v1: Value, k2: string, v2: Value)
    requires m1.Element? && m1.name == MEMBER && DecodeMemberFrom(m1.children, None, None) == Success((Some(k1), Some(v1)))
    requires m2.Element? && m2.name == MEMBER && DecodeMemberFrom(m2.children, None, None) == Success((Some(k2), Some(v2)))
    ensures DecodeStructFrom([m1, m2], map[]) == Success(map[k1 := v1][k2 := v2])
  {
    assert [m1, m2][1..] == [m2] && [m2][1..] == [];
    assert DecodeStructFrom([m1, m2], map[]) == DecodeStructFrom([m2], map[k1 := v1]);
    assert DecodeStructFrom([m2], map[k1 := v1]) == DecodeStructFrom([], map[k1 := v1][k2 := v2]);
  }

  /** A fault element is found first when it is the root's first child, whatever lies below it. */
  lemma FaultFirst(fault: Node, rest: seq<Node>)
    requires fault.Element? && fault.name == FAULT
    ensures var faults := ElementsByTagName(Element("methodResponse", [fault] + rest), FAULT);
      |faults| != 0 && faults[0] == fault
  {
    assert ([fault] + rest)[0] == fault;
  }

  lemma ValueFirst(sv: Node, rest: seq<Node>)
    requires sv.Element? && sv.name == VALUE
    ensures var vals := ElementsByTagName(Element(FAULT, [sv] + rest), VALUE);
      |vals| != 0 && vals[0] == sv
  {
    assert ([sv] + rest)[0] == sv;
  }

  /** The fault test vector: faultCode 4, faultString "Too many parameters.". */
  lemma FaultExample(root: Node, tooMany: string)
    requires tooMany == "Too many parameters."
    requires root == Element("methodResponse", [Element(FAULT, [Element(VALUE, [Element("struct",
      [MemberNode("faultCode", ScalarValue("int", "4")), MemberNode("faultString", ScalarValue("string", tooMany))])])])])
    ensures var e := ParseResponse(root).error;
      e.Some? && e.value.Rpc? && e.value.exception.GetFaultCode() == 4 && e.value.exception.message == Some(tooMany)
  {
    var code := ScalarValue("int", "4");
    var text := ScalarValue("string", tooMany);
    var m1, m2 := MemberNode("faultCode", code), MemberNode("faultString", text);
    var fields := map["faultCode" := Int(4)]["faultString" := Str(tooMany)];
    var st := Element("struct", [m1, m2]);
    var sv := Element(VALUE, [st]);
    var fault := Element(FAULT, [sv]);
    assert ParseInt("4") == Some(4) by {
      ParseIntSignDigits("", "4");
      assert "" + "4" == "4";
    }
    IntValue("int", "4", 4);
    StringValue(tooMany);
    MemberNodeDecodes("faultCode", code, Int(4));
    MemberNodeDecodes("faultString", text, Str(tooMany));
    TwoMembers(m1, m2, "faultCode", Int(4), "faultString", Str(tooMany));
    StructValue(sv, st, [m1, m2], fields);
    FaultDecodes(root, fault, sv, Some(Struct(fields)));
    FaultStruct(fields, 4, tooMany);
  }

  /** A response whose only child is a fault whose only child is a value raises that value's fault. */
  lemma FaultDecodes(root: Node, fault: Node, sv: Node, v: Option<Value>)
    requires sv.Element? && sv.name == VALUE && DecodeValue(sv) == Success(v)
    requires fault == Element(FAULT, [sv]) && root == Element("methodResponse", [fault])
    ensures ParseResponse(root) == Outcome([], Some(FaultError(v)))
  {
    FaultFirst(fault, []);
    ValueFirst(sv, []);
    assert [fault] + [] == [fault] && [sv] + [] == [sv];
  }

  /** The struct test vector: lowerBound 18 and upperBound 139, both written as i4. */
  lemma StructExample(sv: Node)
    requires sv == Element(VALUE, [Element("struct",
      [MemberNode("lowerBound", ScalarValue("i4", "18")), MemberNode("upperBound", ScalarValue("i4", "139"))])])
    ensures DecodeValue(sv) == Success(Some(Struct(map["lowerBound" := Int(18), "upperBound" := Int(139)])))
  {
    var low, high := ScalarValue("i4", "18"), ScalarValue("i4", "139");
    var m1, m2 := MemberNode("lowerBound", low), MemberNode("upperBound", high);
    ParseTwoDigits('1', '8');
    ParseThreeDigits('1', '3', '9');
    IntValue("i4", "18", 18);
    IntValue("i4", "139", 139);
    MemberNodeDecodes("lowerBound", low, Int(18));
    MemberNodeDecodes("upperBound", high, Int(139));
    TwoMembers(m1, m2, "lowerBound", Int(18), "upperBound", Int(139));
    StructValue(sv, Element("struct", [m1, m2]), [m1, m2], map["lowerBound" := Int(18)]["upperBound" := Int(139)]);
  }

  lemma ParseTwoDigits(a: char, b: char)
    requires IsDigit(a) && IsDigit(b)
    ensures ParseInt([a, b]) == Some(DigitValue(a) * 10 + DigitValue(b))
  {
    ParseIntSignDigits("", [a, b]);
    assert "" + [a, b] == [a, b] && [a, b][..1] == [a] && [a][..0] == [];
    assert DigitsValue([a]) == DigitValue(a);
    assert DigitsValue([a, b]) == DigitsValue([a]) * 10 + DigitValue(b);
  }

  lemma ParseThreeDigits(a: char, b: char, c: char)
    requires IsDigit(a) && IsDigit(b) && IsDigit(c)
    ensures ParseInt([a, b, c]) == Some((DigitValue(a) * 10 + DigitValue(b)) * 10 + DigitValue(c))
  {
    ParseIntSignDigits("", [a, b, c]);
    assert "" + [a, b, c] == [a, b, c] && [a, b, c][..2] == [a, b] && [a, b][..1] == [a] && [a][..0] == [];
    assert DigitsValue([a]) == DigitValue(a);
    assert DigitsValue([a, b]) == DigitsValue([a]) * 10 + DigitValue(b);
    assert DigitsValue([a, b, c]) == DigitsValue([a, b]) * 10 + DigitValue(c);
  }

  // ----- Text nodes and unknown tags are skipped -----

  /** A child with no case of its own changes nothing, wherever it stands among the children of a value. */
  lemma {:induction false} ValueSkips(a: seq<Node>, n: Node, b: seq<Node>)
    requires !Recognised(NodeName(n))
    ensures DecodeFirst(a + [n] + b) == DecodeFirst(a + b)
    decreases |a|
  {
    if a == [] {
      assert a + [n] + b == [n] + b && ([n] + b)[1..] == b && a + b == b;
    } else {
      assert (a + [n] + b)[0] == a[0] && (a + [n] + b)[1..] == a[1..] + [n] + b;
      assert (a + b)[0] == a[0] && (a + b)[1..] == a[1..] + b;
      ValueSkips(a[1..], n, b);
    }
  }

  /** A child of a struct other than a member changes nothing. */
  lemma {:induction false} StructSkips(a: seq<Node>, n: Node, b: seq<Node>, acc: map<string, Value>)
    requires NodeName(n) != MEMBER
    ensures DecodeStructFrom(a + [n] + b, acc) == DecodeStructFrom(a + b, acc)
    decreases |a|
  {
    if a == [] {
      assert a + [n] + b == [n] + b && ([n] + b)[1..] == b && a + b == b;
    } else {
      assert (a + [n] + b)[0] == a[0] && (a + [n] + b)[1..] == a[1..] + [n] + b;
      assert (a + b)[0] == a[0] && (a + b)[1..] == a[1..] + b;
      match a[0]
      case Text(_) => StructSkips(a[1..], n, b, acc);
      case Element(tag, kids) =>
        if tag != MEMBER {
          StructSkips(a[1..], n, b, acc);
        } else if DecodeMemberFrom(kids, None, None).Success? {
          StructSkips(a[1..], n, b, Put(acc, DecodeMemberFrom(kids, None, None).value));
        }
    }
  }

  /** A child of a member other than name and value changes nothing. */
  lemma {:induction false} MemberSkips(a: seq<Node>, n: Node, b: seq<Node>, name: Option<string>, value: Option<Value>)
    requires NodeName(n) != NAME && NodeName(n) != VALUE
    ensures DecodeMemberFrom(a + [n] + b, name, value) == DecodeMemberFrom(a + b, name, value)
    decreases |a|
  {
    if a == [] {
      assert a + [n] + b == [n] + b && ([n] + b)[1..] == b && a + b == b;
    } else {
      assert (a + [n] + b)[0] == a[0] && (a + [n] + b)[1..] == a[1..] + [n] + b;
      assert (a + b)[0] == a[0] && (a + b)[1..] == a[1..] + b;
      var name' := if NodeName(a[0]) == NAME then Some(TextContent(a[0])) else name;
      if NodeName(a[0]) == VALUE {
        if DecodeValue(a[0]).Success? {
          MemberSkips(a[1..], n, b, name', DecodeValue(a[0]).value);
        }
      } else {
        MemberSkips(a[1..], n, b, name', value);
      }
    }
  }

  /** Below the array's first child, a node other than a value changes nothing. */
  lemma {:induction false} ArraySkips(a: seq<Node>, n: Node, b: seq<Node>, acc: seq<Option<Value>>)
    requires NodeName(n) != VALUE
    ensures DecodeArrayFrom(a + [n] + b, acc) == DecodeArrayFrom(a + b, acc)
    decreases |a|
  {
    if a == [] {
      assert a + [n] + b == [n] + b && ([n] + b)[1..] == b && a + b == b;
    } else {
      assert (a + [n] + b)[0] == a[0] && (a + [n] + b)[1..] == a[1..] + [n] + b;
      assert (a + b)[0] == a[0] && (a + b)[1..] == a[1..] + b;
      if NodeName(a[0]) == VALUE {
        if DecodeValue(a[0]).Success? {
          ArraySkips(a[1..], n, b, acc + [DecodeValue(a[0]).value]);
        }
      } else {
        ArraySkips(a[1..], n, b, acc);
      }
    }
  }

  /** XMLRPCResult: the list of decoded values and the getters that read it. */
  class XmlRpcResult {
    var values: seq<Value>

    constructor ()
      ensures values == []
    {
      values := [];
    }

    /** parse: appends the decoded params to the list, or ends with the error of the fault or of a decoding. */
    method Parse(root: Node) returns (error: Option<Error>)
      modifies this
      ensures values == old(values) + ParseResponse(root).added
      ensures error == ParseResponse(root).error
    {
      var faults := ElementsByTagName(root, FAULT);
      if |faults| != 0 {
        error := ParseFault(faults[0]);
        return;
      }
      var params := ElementsByTagName(root, PARAM);
      ghost var added: seq<Value> := [];
      var i := 0;
      while i < |params|
        invariant 0 <= i <= |params|
        invariant values == old(values) + added
        invariant ParamsFrom(params[i..], added) == ParamsFrom(params, [])
      {
        ParamsStep(params, i, added);
        var c := ParseParam(params[i]);
        if c.Failure? {
          return Some(c.error);
        }
        if c.value.Some? {
          values := values + [c.value.value];
          added := added + [c.value.value];
        }
        i := i + 1;
      }
      assert params[i..] == [];
      return None;
    }

    /** The fault branch of parse: the error a fault element carries, None when it holds no value. */
    method ParseFault(fault: Node) returns (error: Option<Error>)
      ensures error == FaultOutcome(fault)
    {
      var vals := ElementsByTagName(fault, VALUE);
      if |vals| != 0 {
        var value := ParseValue(vals[0]);
        if value.Failure? {
          return Some(value.error);
        }
        return Some(FaultError(value.value));
      }
      return None;
    }

    /** The inner loop of parse: decodes the first value child of one param, and stops there. */
    method ParseParam(param: Node) returns (c: Result<Option<Value>, Error>)
      ensures c == Contribution(param)
    {
      var valueNodes := Kids(param);
      var j := 0;
      while j < |valueNodes|
        invariant 0 <= j <= |valueNodes|
        invariant FirstNamed(valueNodes[j..], VALUE) == FirstNamed(valueNodes, VALUE)
      {
        var valueNode := valueNodes[j];
        assert valueNodes[j..][0] == valueNode && valueNodes[j..][1..] == valueNodes[j + 1..];
        if NodeName(valueNode) == VALUE {
          c := ParseValue(valueNode);
          return;
        }
        j := j + 1;
      }
      return Success(None);
    }

    /** parseValue, scanning the children and returning at the first recognised one. */
    method ParseValue(v: Node) returns (r: Result<Option<Value>, Error>)
      ensures r == DecodeValue(v)
      decreases v
    {
      if v.Text? {
        return Success(None);
      }
      var children := v.children;
      var i := 0;
      while i < |children|
        invariant 0 <= i <= |children|
        invariant DecodeFirst(children[i..]) == DecodeFirst(children)
      {
        var child := children[i];
        assert children[i..][0] == child && children[i..][1..] == children[i + 1..];
        var childName := NodeName(child);
        var text := TextContent(child);
        if childName == "string" {
          return Success(Some(Str(text)));
        } else if childName == "int" || childName == "i4" {
          var n := ParseInt(text);
          if n.None? {
            return Failure(NumberFormat(text));
          }
          return Success(Some(Int(n.value)));
        } else if childName == "double" {
          return Success(Some(Real(text)));
        } else if childName == "boolean" {
          return Success(Some(Bool(text == "1")));
        } else if childName == "base64" {
          var bytes := Base64.Decode(text);
          if bytes.None? {
            return Failure(Base64Format(text));
          }
          return Success(Some(Bytes(bytes.value)));
        } else if childName == "struct" {
          var fields := ParseStruct(child);
          if fields.Failure? {
            return Failure(fields.error);
          }
          return Success(Some(Struct(fields.value)));
        } else if childName == "array" {
          var items := ParseArray(child);
          if items.Failure? {
            return Failure(items.error);
          }
          return Success(Some(Array(items.value)));
        } else if childName == "dateTime.iso8601" {
          var m := DateTime.Parse(text);
          if m.None? {
            return Failure(DateParse(text));
          }
          return Success(Some(Date(m.value)));
        }
        i := i + 1;
      }
      return Success(None);
    }

    /** parseStruct, filling the map member by member. */
    method ParseStruct(node: Node) returns (r: Result<map<string, Value>, Error>)
      requires node.Element?
      ensures r == DecodeStructFrom(node.children, map[])
      decreases node
    {
      var res: map<string, Value> := map[];
      var childNodes := node.children;
      var i := 0;
      while i < |childNodes|
        invariant 0 <= i <= |childNodes|
        invariant DecodeStructFrom(childNodes[i..], res) == DecodeStructFrom(childNodes, map[])
      {
        var child := childNodes[i];
        assert childNodes[i..][0] == child && childNodes[i..][1..] == childNodes[i + 1..];
        if NodeName(child) == MEMBER {
          var memberChildren := child.children;
          var name: Option<string> := None;
          var value: Option<Value> := None;
          var j := 0;
          while j < |memberChildren|
            invariant 0 <= j <= |memberChildren|
            invariant DecodeMemberFrom(memberChildren[j..], name, value) == DecodeMemberFrom(memberChildren, None, None)
          {
            var memberChild := memberChildren[j];
            assert memberChildren[j..][0] == memberChild && memberChildren[j..][1..] == memberChildren[j + 1..];
            if NodeName(memberChild) == NAME {
              name := Some(TextContent(memberChild));
            }
            if NodeName(memberChild) == VALUE {
              var v := ParseValue(memberChild);
              if v.Failure? {
                return Failure(v.error);
              }
              value := v.value;
            }
            j := j + 1;
          }
          assert memberChildren[j..] == [];
          if name.Some? && value.Some? {
            res := res[name.value := value.value];
          }
        }
        i := i + 1;
      }
      assert childNodes[i..] == [];
      return Success(res);
    }

    /** parseArray, adding the decoding of every value child of the first child node. */
    method ParseArray(node: Node) returns (r: Result<seq<Option<Value>>, Error>)
      requires node.Element?
      ensures r == DecodeArray(node.children)
      decreases node
    {
      var res: seq<Option<Value>> := [];
      var dataNodes := node.children;
      if |dataNodes| > 0 {
        var elemNodes := Kids(dataNodes[0]);
        var i := 0;
        while i < |elemNodes|
          invariant 0 <= i <= |elemNodes|
          invariant DecodeArrayFrom(elemNodes[i..], res) == DecodeArray(dataNodes)
        {
          var vNode := elemNodes[i];
          assert elemNodes[i..][0] == vNode && elemNodes[i..][1..] == elemNodes[i + 1..];
          if NodeName(vNode) == VALUE {
            var v := ParseValue(vNode);
            if v.Failure? {
              return Failure(v.error);
            }
            res := res + [v.value];
          }
          i := i + 1;
        }
        assert elemNodes[i..] == [];
      }
      return Success(res);
    }

    /** getValueCount: the length of the list. */
    function GetValueCount(): (n: nat)
      reads this
      ensures n == |values|
    {
      |values|
    }

    /** The position check every getter makes first (List.get). */
    function At(index: int): (r: Result<Value, Error>)
      reads this
      ensures r.Success? <==> 0 <= index < |values|
      ensures r.Success? ==> r.value == values[index]
      ensures r.Failure? ==> r.error == IndexOutOfBounds(index)
    {
      if 0 <= index < |values| then Success(values[index]) else Failure(IndexOutOfBounds(index))
    }

    function GetStringValue(index: int): (r: Result<string, Error>)
      reads this
      ensures r.Success? <==> 0 <= index < |values| && values[index].Str?
      ensures r.Success? ==> r.value == values[index].s
      ensures r.Failure? ==> r.error == if 0 <= index < |values| then IllegalState else IndexOutOfBounds(index)
    {
      var v :- At(index);
      if v.Str? then Success(v.s) else Failure(IllegalState)
    }

    function GetIntegerValue(index: int): (r: Result<int32, Error>)
      reads this
      ensures r.Success? <==> 0 <= index < |values| && values[index].Int?
      ensures r.Success? ==> r.value == values[index].i
      ensures r.Failure? ==> r.error == if 0 <= index < |values| then IllegalState else IndexOutOfBounds(index)
    {
      var v :- At(index);
      if v.Int? then Success(v.i) else Failure(IllegalState)
    }

    function GetBooleanValue(index: int): (r: Result<bool, Error>)
      reads this
      ensures r.Success? <==> 0 <= index < |values| && values[index].Bool?
      ensures r.Success? ==> r.value == values[index].b
      ensures r.Failure? ==> r.error == if 0 <= index < |values| then IllegalState else IndexOutOfBounds(index)
    {
      var v :- At(index);
      if v.Bool? then Success(v.b) else Failure(IllegalState)
    }

    function GetDoubleValue(index: int): (r: Result<string, Error>)
      reads this
      ensures r.Success? <==> 0 <= index < |values| && values[index].Real?
      ensures r.Success? ==> r.value == values[index].text
      ensures r.Failure? ==> r.error == if 0 <= index < |values| then IllegalState else IndexOutOfBounds(index)
    {
      var v :- At(index);
      if v.Real? then Success(v.text) else Failure(IllegalState)
    }

    function GetDateValue(index: int): (r: Result<DateTime.Moment, Error>)
      reads this
      ensures r.Success? <==> 0 <= index < |values| && values[index].Date?
      ensures r.Success? ==> r.value == values[index].m
      ensures r.Failure? ==> r.error == if 0 <= index < |values| then IllegalState else IndexOutOfBounds(index)
    {
      var v :- At(index);
      if v.Date? then Success(v.m) else Failure(IllegalState)
    }

    function GetBinaryValue(index: int): (r: Result<seq<Base64.byte>, Error>)
      reads this
      ensures r.Success? <==> 0 <= index < |values| && values[index].Bytes?
      ensures r.Success? ==> r.value == values[index].bytes
      ensures r.Failure? ==> r.error == if 0 <= index < |values| then IllegalState else IndexOutOfBounds(index)
    {
      var v :- At(index);
      if v.Bytes? then Success(v.bytes) else Failure(IllegalState)
    }

    function GetArrayValue(index: int): (r: Result<seq<Option<Value>>, Error>)
      reads this
      ensures r.Success? <==> 0 <= index < |values| && values[index].Array?
      ensures r.Success? ==> r.value == values[index].items
      ensures r.Failure? ==> r.error == if 0 <= index < |values| then IllegalState else IndexOutOfBounds(index)
    {
      var v :- At(index);
      if v.Array? then Success(v.items) else Failure(IllegalState)
    }

    function GetStructValue(index: int): (r: Result<map<string, Value>, Error>)
      reads this
      ensures r.Success? <==> 0 <= index < |values| && values[index].Struct?
      ensures r.Success? ==> r.value == values[index].fields
      ensures r.Failure? ==> r.error == if 0 <= index < |values| then IllegalState else IndexOutOfBounds(index)
    {
      var v :- At(index);
      if v.Struct? then Success(v.fields) else Failure(IllegalState)
    }

    /** At every position of the list exactly one typed getter succeeds. */
    lemma OneGetterSucceeds(index: int)
      requires 0 <= index < |values|
      ensures (if GetStringValue(index).Success? then 1 else 0) + (if GetIntegerValue(index).Success? then 1 else 0) +
              (if GetBooleanValue(index).Success? then 1 else 0) + (if GetDoubleValue(index).Success? then 1 else 0) +
              (if GetDateValue(index).Success? then 1 else 0) + (if GetBinaryValue(index).Success? then 1 else 0) +
              (if GetArrayValue(index).Success? then 1 else 0) + (if GetStructValue(index).Success? then 1 else 0) == 1
    {
    }
  }
}
