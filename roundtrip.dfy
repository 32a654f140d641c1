/**
 * The encoder and the decoder together: the markup XMLRPCParameters writes for an object is the
 * serialisation of a document tree, and XMLRPCResult reads that tree back to the value the
 * object stands for. The XML parser between the two is not part of the model; the tree is the
 * one whose markup the encoder wrote.
 */
module RoundTrip {
  import opened Wrappers
  import opened Decimal
  import Base64
  import DateTime
  import opened Xml
  import opened Values
  import opened Exceptions
  import opened Parameters
  import opened Response

  /** The child nodes a parser makes of character data: none for empty text. */
  function TextKids(s: string): seq<Node>
  {
    if s == "" then [] else [Text(s)]
  }

  /**
   * The element the encoder's markup for a supported object stands for. The encoder writes
   * nothing for an unsupported object, which becomes an empty text node here; the lemmas below
   * only speak of supported objects.
   */
  function ValueTree(n: Native): Node
  {
    match n
    case NStr(s) => Element("string", TextKids(s))
    case NMap(es) => Element("struct", MemberTrees(es))
    case NList(xs) => Element("array", [Element("data", ItemTrees(xs))])
    case NBool(b) => Element("boolean", [Text(if b then "1" else "0")])
    case NInt(i) => Element("int", [Text(IntToString(i))])
    case NDouble(text) => Element("double", TextKids(text))
    case NDate(m) => Element("dateTime.iso8601", [Text(DateTime.Format(m))])
    case NBytes(bytes) => Element("base64", TextKids(Base64.Encode(bytes)))
    case NOther => Text("")
  }

  function MemberTrees(es: seq<Entry>): seq<Node>
  {
    if es == [] then []
    else if es[0].key.OtherKey? then MemberTrees(es[1..])
    else [MemberTree(es[0])] + MemberTrees(es[1..])
  }

  function MemberTree(e: Entry): Node
    requires e.key.StrKey?
  {
    Element(MEMBER, [Element(NAME, TextKids(e.key.s)), Element(VALUE, [ValueTree(e.value)])])
  }

  function ItemTrees(xs: seq<Native>): seq<Node>
  {
    if xs == [] then [] else [Element(VALUE, [ValueTree(xs[0])])] + ItemTrees(xs[1..])
  }

  /** The element one appendParameter call writes. */
  function ParamTree(n: Native): Node
  {
    Element(PARAM, [Element(VALUE, [ValueTree(n)])])
  }

  /**
   * The value the decoder gives for a supported object: a Map becomes the HashMap of its
   * String-keyed entries. An unsupported object never reaches the decoder; it maps to an empty
   * String here.
   */
  function ToValue(n: Native): Value
  {
    match n
    case NStr(s) => Str(s)
    case NMap(es) => Struct(MapOf(map[], ToPairs(es)))
    case NList(xs) => Array(ToItems(xs))
    case NBool(b) => Bool(b)
    case NInt(i) => Int(i)
    case NDouble(text) => Real(text)
    case NDate(m) => Date(m)
    case NBytes(bytes) => Bytes(bytes)
    case NOther => Str("")
  }

  function ToPairs(es: seq<Entry>): seq<(string, Value)>
  {
    if es == [] then []
    else if es[0].key.OtherKey? then ToPairs(es[1..])
    else [ToPair(es[0])] + ToPairs(es[1..])
  }

  function ToPair(e: Entry): (string, Value)
    requires e.key.StrKey?
  {
    (e.key.s, ToValue(e.value))
  }

  function ToItems(xs: seq<Native>): seq<Option<Value>>
  {
    if xs == [] then [] else [Some(ToValue(xs[0]))] + ToItems(xs[1..])
  }

  /**
   * The texts the encoder writes without escaping (Map keys and Double texts) hold neither '&'
   * nor '<', so that a parser reads them back unchanged.
   */
  predicate PlainText(n: Native)
  {
    match n
    case NDouble(text) => '&' !in text && '<' !in text
    case NMap(es) => forall k :: 0 <= k < |es| ==> es[k].key.StrKey? ==>
      '&' !in es[k].key.s && '<' !in es[k].key.s && PlainText(es[k].value)
    case NList(xs) => forall k :: 0 <= k < |xs| ==> PlainText(xs[k])
    case _ => true
  }

  /** Every Date has calendar fields that fit the fixed-width layout. */
  predicate DatesFit(n: Native)
  {
    match n
    case NDate(m) => DateTime.FitsLayout(m)
    case NMap(es) => forall k :: 0 <= k < |es| ==> es[k].key.StrKey? ==> DatesFit(es[k].value)
    case NList(xs) => forall k :: 0 <= k < |xs| ==> DatesFit(xs[k])
    case _ => true
  }

  // ----- The markup is the serialisation of the tree -----

  lemma TextKidsText(s: string)
    ensures SerializeAll(TextKids(s)) == Escape(s)
    ensures TextContentAll(TextKids(s)) == s
  {
    if s != "" {
      assert SerializeAll(TextKids(s)) == Escape(s) + "";
      assert TextContentAll(TextKids(s)) == s + "";
    }
  }

  lemma SerializeCons(n: Node, rest: seq<Node>)
    ensures SerializeAll([n] + rest) == Serialize(n) + SerializeAll(rest)
  {
    assert ([n] + rest)[0] == n && ([n] + rest)[1..] == rest;
  }

  /** The markup of an element: its tags around the markup of its children. */
  lemma Tags(name: string, cs: seq<Node>, open: string, close: string)
    requires open == "<" + name + ">" && close == "</" + name + ">"
    ensures Serialize(Element(name, cs)) == open + SerializeAll(cs) + close
  {
  }

  /** An element with one child. */
  lemma Wrapped(name: string, t: Node, text: string, open: string, close: string)
    requires Serialize(t) == text
    requires open == "<" + name + ">" && close == "</" + name + ">"
    ensures Serialize(Element(name, [t])) == open + text + close
  {
    assert SerializeAll([t]) == Serialize(t) + "";
  }

  /** Two nested elements around one child, with the tags written together. */
  lemma Nested(outer: string, inner: string, t: Node, text: string, open: string, close: string)
    requires Serialize(t) == text
    requires open == "<" + outer + ">" + ("<" + inner + ">") && close == "</" + inner + ">" + ("</" + outer + ">")
    ensures Serialize(Element(outer, [Element(inner, [t])])) == open + text + close
  {
    Wrapped(inner, t, text, "<" + inner + ">", "</" + inner + ">");
    Wrapped(outer, Element(inner, [t]), "<" + inner + ">" + text + ("</" + inner + ">"), "<" + outer + ">", "</" + outer + ">");
  }










  /** The tag texts of the scalar elements. */
  lemma ScalarTags()
    ensures "<" + "string" + ">" == "<string>" && "</" + "string" + ">" == "</string>"
    ensures "<" + "boolean" + ">" == "<boolean>" && "</" + "boolean" + ">" == "</boolean>"
    ensures "<" + "int" + ">" == "<int>" && "</" + "int" + ">" == "</int>"
    ensures "<" + "double" + ">" == "<double>" && "</" + "double" + ">" == "</double>"
  {
  }

  /** The tag texts of the date element. */
  lemma DateTags()
    ensures "<" + "dateTime.iso8601" + ">" == "<dateTime.iso8601>" && "</" + "dateTime.iso8601" + ">" == "</dateTime.iso8601>"
  {
  }

  /** The tag texts of the base64 element. */
  lemma BytesTags()
    ensures "<" + "base64" + ">" == "<base64>" && "</" + "base64" + ">" == "</base64>"
  {
  }

  /** The tag texts of the array and data elements, and of the value element. */
  lemma ContainerTags()
    ensures "<" + "array" + ">" == "<array>" && "</" + "array" + ">" == "</array>" && "<" + "data" + ">" == "<data>" && "</" + "data" + ">" == "</data>"
    ensures "<" + VALUE + ">" == "<value>" && "</" + VALUE + ">" == "</value>"
  {
  }

  /** An element between two texts keeps its place when the texts around it are joined. */
  lemma Surround(a: string, b: string, x: string, c: string, d: string)
    ensures a + (b + x + c) + d == (a + b) + x + (c + d)
  {
  }

  /** Text with neither '&' nor '<' serialises to itself. */
  lemma PlainChars(s: string)
    requires forall k :: 0 <= k < |s| ==> s[k] != '&' && s[k] != '<'
    ensures Escape(s) == s
  {
    EscapeUnchanged(s);
  }

  lemma DigitsPlain(s: string)
    requires AllDigits(s)
    ensures Escape(s) == s
  {
    PlainChars(s);
  }

  lemma IntPlain(i: int32)
    ensures Escape(IntToString(i)) == IntToString(i)
  {
    if i < 0 {
      var s := IntToString(i);
      assert s == "-" + NatToString(-(i as int));
      assert forall k :: 1 <= k < |s| ==> s[k] == NatToString(-(i as int))[k - 1];
      PlainChars(s);
    } else {
      DigitsPlain(IntToString(i));
    }
  }

  lemma DatePlain(m: DateTime.Moment)
    ensures Escape(DateTime.Format(m)) == DateTime.Format(m)
  {
    var a, b, c := Padded(m.year, 4), Padded(m.month, 2), Padded(m.day, 2);
    var d, e, f := Padded(m.hour, 2), Padded(m.minute, 2), Padded(m.second, 2);
    DigitsChars(a);
    DigitsChars(b);
    DigitsChars(c);
    DigitsChars(d);
    DigitsChars(e);
    DigitsChars(f);
    SeparatorsPlain();
    PlainConcat(a, b);
    PlainConcat(a + b, c);
    PlainConcat(a + b + c, "T");
    PlainConcat(a + b + c + "T", d);
    PlainConcat(a + b + c + "T" + d, ":");
    PlainConcat(a + b + c + "T" + d + ":", e);
    PlainConcat(a + b + c + "T" + d + ":" + e, ":");
    PlainConcat(a + b + c + "T" + d + ":" + e + ":", f);
    EscapeUnchanged(DateTime.Format(m));
  }

  lemma SeparatorsPlain()
    ensures '&' !in "T" && '<' !in "T" && '&' !in ":" && '<' !in ":"
  {
  }

  lemma PlainConcat(x: string, y: string)
    requires '&' !in x && '<' !in x && '&' !in y && '<' !in y
    ensures '&' !in x + y && '<' !in x + y
  {
  }

  lemma DigitsChars(s: string)
    requires AllDigits(s)
    ensures '&' !in s && '<' !in s
  {
  }

  lemma BytesPlain(bytes: seq<Base64.byte>)
    ensures Escape(Base64.Encode(bytes)) == Base64.Encode(bytes)
  {
    Base64.EncodeAlphabet(bytes);
    PlainChars(Base64.Encode(bytes));
  }

  /** The encoder's markup for an object is exactly the serialisation of its tree. */
  lemma {:induction false} TreeText(n: Native)
    requires Supported(n) && PlainText(n)
    ensures AppendValue(n).Success? && Serialize(ValueTree(n)) == AppendValue(n).value
    decreases n, 2
  {
    match n
    case NMap(es) => StructTree(es);
    case NList(xs) => ArrayTree(xs);
    case NStr(s) => StringTree(s);
    case NBool(b) => BooleanTree(b);
    case NInt(i) => IntegerTree(i);
    case NDouble(text) => DoubleTree(text);
    case NDate(m) => DateTree(m);
    case NBytes(bytes) => BytesTree(bytes);
  }

  lemma {:induction false} StructTree(es: seq<Entry>)
    requires Supported(NMap(es)) && PlainText(NMap(es))
    ensures AppendValue(NMap(es)) == Success(Serialize(ValueTree(NMap(es))))
    decreases es, 1
  {
    MembersText(es);
    assert "<" + "struct" + ">" == "<struct>" && "</" + "struct" + ">" == "</struct>";
    Tags("struct", MemberTrees(es), "<struct>", "</struct>");
  }

  lemma {:induction false} ArrayTree(xs: seq<Native>)
    requires Supported(NList(xs)) && PlainText(NList(xs))
    ensures AppendValue(NList(xs)) == Success(Serialize(ValueTree(NList(xs))))
    decreases xs, 1
  {
    ItemsText(xs);
    ArrayMarkup(ItemTrees(xs));
  }

  /** An array element: the array and data tags around the markup of the items. */
  lemma ArrayMarkup(cs: seq<Node>)
    ensures Serialize(Element("array", [Element("data", cs)])) == "<array><data>" + SerializeAll(cs) + "</data></array>"
  {
    ContainerTags();
    Tags("data", cs, "<data>", "</data>");
    Wrapped("array", Element("data", cs), Serialize(Element("data", cs)), "<array>", "</array>");
    Surround("<array>", "<data>", SerializeAll(cs), "</data>", "</array>");
  }

  lemma BooleanTree(b: bool)
    ensures AppendValue(NBool(b)) == Success(Serialize(ValueTree(NBool(b))))
  {
    var t := if b then "1" else "0";
    PlainChars(t);
    ScalarTags();
    Wrapped("boolean", Text(t), t, "<boolean>", "</boolean>");
  }

  lemma IntegerTree(i: int32)
    ensures AppendValue(NInt(i)) == Success(Serialize(ValueTree(NInt(i))))
  {
    IntPlain(i);
    ScalarTags();
    Wrapped("int", Text(IntToString(i)), IntToString(i), "<int>", "</int>");
  }

  lemma DoubleTree(text: string)
    requires '&' !in text && '<' !in text
    ensures AppendValue(NDouble(text)) == Success(Serialize(ValueTree(NDouble(text))))
  {
    PlainChars(text);
    TextKidsText(text);
    ScalarTags();
    Tags("double", TextKids(text), "<double>", "</double>");
  }

  lemma DateTree(m: DateTime.Moment)
    ensures AppendDateValue(m) == Serialize(Element("dateTime.iso8601", [Text(DateTime.Format(m))]))
  {
    DatePlain(m);
    DateMarkup(DateTime.Format(m));
  }

  lemma DateMarkup(t: string)
    requires Escape(t) == t
    ensures "<dateTime.iso8601>" + t + "</dateTime.iso8601>" == Serialize(Element("dateTime.iso8601", [Text(t)]))
  {
    DateTags();
    Wrapped("dateTime.iso8601", Text(t), t, "<dateTime.iso8601>", "</dateTime.iso8601>");
  }

  lemma BytesTree(bytes: seq<Base64.byte>)
    ensures AppendValue(NBytes(bytes)) == Success(Serialize(ValueTree(NBytes(bytes))))
  {
    BytesPlain(bytes);
    TextKidsText(Base64.Encode(bytes));
    BytesTags();
    Tags("base64", TextKids(Base64.Encode(bytes)), "<base64>", "</base64>");
  }

  lemma StringTree(s: string)
    ensures AppendValue(NStr(s)) == Success(Serialize(ValueTree(NStr(s))))
  {
    TextKidsText(s);
    EscapeTextIsEscape(s);
    ScalarTags();
    Tags("string", TextKids(s), "<string>", "</string>");
  }

  lemma {:induction false} MembersText(es: seq<Entry>)
    requires forall k :: 0 <= k < |es| ==> es[k].key.StrKey? ==> Supported(es[k].value) && PlainText(es[k].value)
    requires forall k :: 0 <= k < |es| ==> es[k].key.StrKey? ==> '&' !in es[k].key.s && '<' !in es[k].key.s
    ensures AppendStructMembers(es).Success? && SerializeAll(MemberTrees(es)) == AppendStructMembers(es).value
    decreases es, 0
  {
    if es != [] {
      assert forall k :: 0 <= k < |es[1..]| ==> es[1..][k] == es[k + 1];
      MembersText(es[1..]);
      if es[0].key.StrKey? {
        MemberText1(es[0]);
        SerializeCons(MemberTree(es[0]), MemberTrees(es[1..]));
      }
    }
  }

  lemma {:induction false} MemberText1(e: Entry)
    requires e.key.StrKey? && Supported(e.value) && PlainText(e.value)
    requires '&' !in e.key.s && '<' !in e.key.s
    ensures AppendMember(e).Success? && Serialize(MemberTree(e)) == AppendMember(e).value
    decreases e, 0
  {
    TreeText(e.value);
    MemberMarkup(e.key.s, ValueTree(e.value), AppendValue(e.value).value);
  }

  /** A member element: its name unescaped, because it holds neither '&' nor '<'. */
  lemma MemberMarkup(key: string, t: Node, v: string)
    requires '&' !in key && '<' !in key && Serialize(t) == v
    ensures Serialize(Element(MEMBER, [Element(NAME, TextKids(key)), Element(VALUE, [t])])) == MemberText(key, v)
  {
    var nameNode, valueNode := Element(NAME, TextKids(key)), Element(VALUE, [t]);
    var a, b, c := "<" + MEMBER + ">", "<" + NAME + ">", "</" + NAME + ">";
    var d, e, f := "<" + VALUE + ">", "</" + VALUE + ">", "</" + MEMBER + ">";
    TextKidsText(key);
    EscapeUnchanged(key);
    Tags(NAME, TextKids(key), b, c);
    Wrapped(VALUE, t, v, d, e);
    SerializeCons(nameNode, [valueNode]);
    assert SerializeAll([valueNode]) == Serialize(valueNode) + "";
    Tags(MEMBER, [nameNode, valueNode], a, f);
    MemberLayout(key, v);
  }

  /** The tags of a member element, written out, are the encoder's member text. */
  lemma MemberLayout(key: string, v: string)
    ensures var a, b, c := "<" + MEMBER + ">", "<" + NAME + ">", "</" + NAME + ">";
      var d, e, f := "<" + VALUE + ">", "</" + VALUE + ">", "</" + MEMBER + ">";
      a + (b + key + c + (d + v + e)) + f == MemberText(key, v)
  {
    var a, b, c := "<" + MEMBER + ">", "<" + NAME + ">", "</" + NAME + ">";
    var d, e, f := "<" + VALUE + ">", "</" + VALUE + ">", "</" + MEMBER + ">";
    assert a + (b + key + c + (d + v + e)) + f == (a + b) + key + (c + d) + v + (e + f);
    assert a + b == "<member><name>" && c + d == "</name><value>" && e + f == "</value></member>";
  }

  lemma {:induction false} ItemsText(xs: seq<Native>)
    requires forall k :: 0 <= k < |xs| ==> Supported(xs[k]) && PlainText(xs[k])
    ensures AppendArrayItems(xs).Success? && SerializeAll(ItemTrees(xs)) == AppendArrayItems(xs).value
    decreases xs, 0
  {
    if xs != [] {
      assert forall k :: 0 <= k < |xs[1..]| ==> xs[1..][k] == xs[k + 1];
      ItemsText(xs[1..]);
      TreeText(xs[0]);
      var item := Element(VALUE, [ValueTree(xs[0])]);
      ContainerTags();
      Wrapped(VALUE, ValueTree(xs[0]), AppendValue(xs[0]).value, "<value>", "</value>");
      SerializeCons(item, ItemTrees(xs[1..]));
    }
  }

  // ----- The decoder reads the tree back -----

  /** Decoding the value element around an object's tree gives the value the object stands for. */
  lemma {:induction false} ValueRoundTrip(n: Native)
    requires Supported(n) && DatesFit(n)
    ensures DecodeValue(Element(VALUE, [ValueTree(n)])) == Success(Some(ToValue(n)))
    decreases n, 2
  {
    match n
    case NMap(es) => StructRoundTrip(es);
    case NList(xs) => ArrayRoundTrip(xs);
    case NStr(s) => StringReads(s);
    case NBool(b) => BooleanReads(b);
    case NInt(i) => IntegerReads(i);
    case NDouble(text) => DoubleReads(text);
    case NDate(m) => DateReads(m);
    case NBytes(bytes) => BytesReads(bytes);
  }

  /** A value element with a single recognised child decodes that child. */
  lemma OnlyChild(t: Node)
    requires t.Element? && Recognised(t.name)
    ensures DecodeValue(Element(VALUE, [t])) == DecodeChild(t)
  {
    assert [t][0] == t;
  }

  lemma {:induction false} StructRoundTrip(es: seq<Entry>)
    requires Supported(NMap(es)) && DatesFit(NMap(es))
    ensures DecodeValue(Element(VALUE, [ValueTree(NMap(es))])) == Success(Some(ToValue(NMap(es))))
    decreases es, 1
  {
    OnlyChild(ValueTree(NMap(es)));
    MembersRoundTrip(es);
    StructIsMapOf(MemberTrees(es), map[]);
    ChildStruct(MemberTrees(es));
  }

  lemma {:induction false} ArrayRoundTrip(xs: seq<Native>)
    requires Supported(NList(xs)) && DatesFit(NList(xs))
    ensures DecodeValue(Element(VALUE, [ValueTree(NList(xs))])) == Success(Some(ToValue(NList(xs))))
    decreases xs, 1
  {
    OnlyChild(ValueTree(NList(xs)));
    ItemsRoundTrip(xs, []);
    assert [] + ToItems(xs) == ToItems(xs);
    var data := Element("data", ItemTrees(xs));
    assert [data][0] == data;
    assert DecodeArray([data]) == DecodeArrayFrom(ItemTrees(xs), []);
    ChildArray([data]);
  }

  lemma StringReads(s: string)
    ensures DecodeValue(Element(VALUE, [ValueTree(NStr(s))])) == Success(Some(ToValue(NStr(s))))
  {
    OnlyChild(ValueTree(NStr(s)));
    TextKidsText(s);
    ChildString(TextKids(s));
  }

  lemma DoubleReads(text: string)
    ensures DecodeValue(Element(VALUE, [ValueTree(NDouble(text))])) == Success(Some(ToValue(NDouble(text))))
  {
    OnlyChild(ValueTree(NDouble(text)));
    TextKidsText(text);
    ChildDouble(TextKids(text));
  }

  lemma BooleanReads(b: bool)
    ensures DecodeValue(Element(VALUE, [ValueTree(NBool(b))])) == Success(Some(ToValue(NBool(b))))
  {
    OnlyChild(ValueTree(NBool(b)));
    var s := if b then "1" else "0";
    assert TextContentAll([Text(s)]) == s + "";
    ChildBoolean([Text(s)]);
    assert ValueTree(NBool(b)) == Element("boolean", [Text(s)]);
    assert DecodeChild(Element("boolean", [Text(s)])) == Success(Some(Bool(s == "1")));
    assert (s == "1") == b;
  }

  lemma IntegerReads(i: int32)
    ensures DecodeValue(Element(VALUE, [ValueTree(NInt(i))])) == Success(Some(ToValue(NInt(i))))
  {
    OnlyChild(ValueTree(NInt(i)));
    var s := IntToString(i);
    assert TextContentAll([Text(s)]) == s + "";
    assert TextContentAll([Text(s)]) == s;
    ParseIntToString(i);
    assert ParseInt(s) == Some(i);
    ChildInt("int", [Text(s)]);
    assert ValueTree(NInt(i)) == Element("int", [Text(s)]);
    assert DecodeChild(Element("int", [Text(s)])) == Success(Some(Int(i)));
  }

  lemma DateReads(m: DateTime.Moment)
    requires DateTime.FitsLayout(m)
    ensures DecodeValue(Element(VALUE, [Element("dateTime.iso8601", [Text(DateTime.Format(m))])])) == Success(Some(Date(m)))
  {
    DateTime.ParseFormat(m);
    DateElementReads(DateTime.Format(m), m);
  }

  /** A date element whose text parses back to a moment decodes to that moment. */
  lemma DateElementReads(s: string, m: DateTime.Moment)
    requires DateTime.Parse(s) == Some(m)
    ensures DecodeValue(Element(VALUE, [Element("dateTime.iso8601", [Text(s)])])) == Success(Some(Date(m)))
  {
    OnlyChild(Element("dateTime.iso8601", [Text(s)]));
    assert TextContentAll([Text(s)]) == s + "";
    assert TextContentAll([Text(s)]) == s;
    ChildDate([Text(s)]);
  }

  lemma BytesReads(bytes: seq<Base64.byte>)
    ensures DecodeValue(Element(VALUE, [Element("base64", TextKids(Base64.Encode(bytes)))])) == Success(Some(Bytes(bytes)))
  {
    OnlyChild(Element("base64", TextKids(Base64.Encode(bytes))));
    TextKidsText(Base64.Encode(bytes));
    Base64.DecodeEncode(bytes);
    ChildBase64(TextKids(Base64.Encode(bytes)));
  }

  lemma {:induction false} MembersRoundTrip(es: seq<Entry>)
    requires forall k :: 0 <= k < |es| ==> es[k].key.StrKey? ==> Supported(es[k].value) && DatesFit(es[k].value)
    ensures MemberPairs(MemberTrees(es)) == Success(ToPairs(es))
    decreases es, 0
  {
    if es != [] {
      assert forall k :: 0 <= k < |es[1..]| ==> es[1..][k] == es[k + 1];
      MembersRoundTrip(es[1..]);
      if es[0].key.StrKey? {
        var m := MemberTree(es[0]);
        MemberRoundTrip(es[0]);
        var cs := [m] + MemberTrees(es[1..]);
        assert cs[0] == m && cs[1..] == MemberTrees(es[1..]);
      }
    }
  }

  lemma {:induction false} MemberRoundTrip(e: Entry)
    requires e.key.StrKey? && Supported(e.value) && DatesFit(e.value)
    ensures DecodeMemberFrom(MemberTree(e).children, None, None) == Success((Some(e.key.s), Some(ToValue(e.value))))
    decreases e, 0
  {
    ValueRoundTrip(e.value);
    TextKidsText(e.key.s);
    var cs := MemberTree(e).children;
    assert cs[1..] == [cs[1]];
    assert DecodeMemberFrom(cs, None, None) == DecodeMemberFrom([cs[1]], Some(e.key.s), None);
    MemberOne(cs[1], Some(e.key.s), None);
  }

  lemma {:induction false} ItemsRoundTrip(xs: seq<Native>, acc: seq<Option<Value>>)
    requires forall k :: 0 <= k < |xs| ==> Supported(xs[k]) && DatesFit(xs[k])
    ensures DecodeArrayFrom(ItemTrees(xs), acc) == Success(acc + ToItems(xs))
    decreases xs, 0
  {
    if xs == [] {
      assert acc + [] == acc;
    } else {
      assert forall k :: 0 <= k < |xs[1..]| ==> xs[1..][k] == xs[k + 1];
      ValueRoundTrip(xs[0]);
      var v := Some(ToValue(xs[0]));
      ItemsRoundTrip(xs[1..], acc + [v]);
      var cs := ItemTrees(xs);
      assert cs[0] == Element(VALUE, [ValueTree(xs[0])]) && cs[1..] == ItemTrees(xs[1..]);
      assert acc + [v] + ToItems(xs[1..]) == acc + ([v] + ToItems(xs[1..]));
    }
  }

  // ----- One call: appendParameter and then parse -----

  /**
   * The text appendParameter adds for an object is the serialisation of one param element, and
   * that element adds the object's value to the decoder's list.
   */
  lemma ParamRoundTrip(n: Native)
    requires Supported(n) && PlainText(n) && DatesFit(n)
    ensures AppendValue(n).Success?
    ensures Serialize(ParamTree(n)) == "<param><value>" + AppendValue(n).value + "</value></param>"
    ensures Contribution(ParamTree(n)) == Success(Some(ToValue(n)))
  {
    TreeText(n);
    ValueRoundTrip(n);
    var v := Element(VALUE, [ValueTree(n)]);
    ParamMarkup(ValueTree(n), AppendValue(n).value);
    assert [v][0] == v;
  }

  /** A param element: the param and value tags around the markup of the value's tree. */
  lemma ParamMarkup(t: Node, text: string)
    requires Serialize(t) == text
    ensures Serialize(Element(PARAM, [Element(VALUE, [t])])) == "<param><value>" + text + "</value></param>"
  {
    assert "<" + PARAM + ">" + ("<" + VALUE + ">") == "<param><value>";
    assert "</" + VALUE + ">" + ("</" + PARAM + ">") == "</value></param>";
    Nested(PARAM, VALUE, t, text, "<param><value>", "</value></param>");
  }
}
