/**
 * XMLRPCParameters: the encoder. Each parameter is written as <param><value>…</value></param>
 * into a growing buffer; the value markup is chosen by a fixed chain of type tests.
 */
module Parameters {
  import opened Wrappers
  import Seqs
  import opened Decimal
  import Base64
  import DateTime
  import Xml
  import opened Values
  import opened Exceptions

  /** A String: escaped character data between string tags. */
  function AppendStringValue(s: string): string
  {
    "<string>" + Xml.EscapeText(s) + "</string>"
  }

  /** A Boolean: 1 for true, 0 for false. */
  function AppendBooleanValue(b: bool): string
  {
    "<boolean>" + (if b then "1" else "0") + "</boolean>"
  }

  /** An Integer: its decimal text. */
  function AppendIntegerValue(i: int32): string
  {
    "<int>" + IntToString(i) + "</int>"
  }

  /** A Double: its text, unchanged. */
  function AppendDoubleValue(text: string): string
  {
    "<double>" + text + "</double>"
  }

  /** A Date: its calendar fields in the yyyyMMdd'T'HH:mm:ss layout. */
  function AppendDateValue(m: DateTime.Moment): string
  {
    "<dateTime.iso8601>" + DateTime.Format(m) + "</dateTime.iso8601>"
  }

  /** A byte array: its padded base64 text. */
  function AppendDataValue(bytes: seq<Base64.byte>): string
  {
    "<base64>" + Base64.Encode(bytes) + "</base64>"
  }

  function MemberText(key: string, valueText: string): string
  {
    "<member><name>" + key + "</name><value>" + valueText + "</value></member>"
  }

  function ItemText(valueText: string): string
  {
    "<value>" + valueText + "</value>"
  }

  /**
   * The markup of one object, tested in the order String, Map, List, Boolean, Integer, Double,
   * Date, byte[]; anything else, at any depth, fails with UnsupportedParameterType.
   */
  function AppendValue(n: Native): Result<string, Error>
  {
    match n
    case NStr(s) => Success(AppendStringValue(s))
    case NMap(es) => var members :- AppendStructMembers(es); Success("<struct>" + members + "</struct>")
    case NList(xs) => var items :- AppendArrayItems(xs); Success("<array><data>" + items + "</data></array>")
    case NBool(b) => Success(AppendBooleanValue(b))
    case NInt(i) => Success(AppendIntegerValue(i))
    case NDouble(text) => Success(AppendDoubleValue(text))
    case NDate(m) => Success(AppendDateValue(m))
    case NBytes(bytes) => Success(AppendDataValue(bytes))
    case NOther => Failure(UnsupportedParameterType)
  }

  /** The members of a Map in iteration order; entries whose key is not a String are skipped. */
  function AppendStructMembers(es: seq<Entry>): Result<string, Error>
  {
    if es == [] then Success("")
    else if es[0].key.OtherKey? then AppendStructMembers(es[1..])
    else
      var m :- AppendMember(es[0]);
      var rest :- AppendStructMembers(es[1..]);
      Success(m + rest)
  }

  /** One member: the key text as it is, then the encoded value. */
  function AppendMember(e: Entry): Result<string, Error>
    requires e.key.StrKey?
  {
    var v :- AppendValue(e.value);
    Success(MemberText(e.key.s, v))
  }

  /** The elements of a List in order, each in its own value element. */
  function AppendArrayItems(xs: seq<Native>): Result<string, Error>
  {
    if xs == [] then Success("")
    else
      var v :- AppendValue(xs[0]);
      var rest :- AppendArrayItems(xs[1..]);
      Success(ItemText(v) + rest)
  }

  /** The objects the encoder accepts: the eight types, nested in Maps (under String keys) and Lists. */
  predicate Supported(n: Native)
  {
    match n
    case NOther => false
    case NMap(es) => forall k :: 0 <= k < |es| ==> es[k].key.StrKey? ==> Supported(es[k].value)
    case NList(xs) => forall k :: 0 <= k < |xs| ==> Supported(xs[k])
    case _ => true
  }

  /** Encoding fails exactly on unsupported objects, and always with the same error. */
  lemma {:induction false} AppendValueFails(n: Native)
    ensures AppendValue(n).Failure? <==> !Supported(n)
    ensures AppendValue(n).Failure? ==> AppendValue(n).error == UnsupportedParameterType
  {
    match n
    case NMap(es) => AppendStructMembersFails(es);
    case NList(xs) => AppendArrayItemsFails(xs);
    case _ =>
  }

  lemma {:induction false} AppendStructMembersFails(es: seq<Entry>)
    ensures AppendStructMembers(es).Failure? <==> exists k :: 0 <= k < |es| && es[k].key.StrKey? && !Supported(es[k].value)
    ensures AppendStructMembers(es).Failure? ==> AppendStructMembers(es).error == UnsupportedParameterType
  {
    if es != [] {
      AppendMemberFails(es[0]);
      AppendStructMembersFails(es[1..]);
      assert forall k :: 1 <= k < |es| ==> es[k] == es[1..][k - 1];
      if exists k :: 1 <= k < |es| && es[k].key.StrKey? && !Supported(es[k].value) {
        var k :| 1 <= k < |es| && es[k].key.StrKey? && !Supported(es[k].value);
        assert es[1..][k - 1] == es[k];
      }
    }
  }

  lemma {:induction false} AppendMemberFails(e: Entry)
    ensures e.key.StrKey? ==> (AppendMember(e).Failure? <==> !Supported(e.value))
    ensures e.key.StrKey? && AppendMember(e).Failure? ==> AppendMember(e).error == UnsupportedParameterType
  {
    AppendValueFails(e.value);
  }

  lemma {:induction false} AppendArrayItemsFails(xs: seq<Native>)
    ensures AppendArrayItems(xs).Failure? <==> exists k :: 0 <= k < |xs| && !Supported(xs[k])
    ensures AppendArrayItems(xs).Failure? ==> AppendArrayItems(xs).error == UnsupportedParameterType
  {
    if xs != [] {
      AppendValueFails(xs[0]);
      AppendArrayItemsFails(xs[1..]);
      assert forall k :: 1 <= k < |xs| ==> xs[k] == xs[1..][k - 1];
      if exists k :: 1 <= k < |xs| && !Supported(xs[k]) {
        var k :| 1 <= k < |xs| && !Supported(xs[k]);
        assert xs[1..][k - 1] == xs[k];
      }
    }
  }

  /** The entries of a Map whose key is a String. */
  function StringKeyed(es: seq<Entry>): (r: seq<Entry>)
    ensures |r| <= |es|
    ensures forall e :: e in r <==> e in es && e.key.StrKey?
  {
    if es == [] then []
    else if es[0].key.StrKey? then [es[0]] + StringKeyed(es[1..])
    else StringKeyed(es[1..])
  }

  /** The filter keeps the iteration order: it distributes over concatenation. */
  lemma {:induction false} StringKeyedConcat(a: seq<Entry>, b: seq<Entry>)
    ensures StringKeyed(a + b) == StringKeyed(a) + StringKeyed(b)
  {
    if a == [] {
      assert a + b == b;
    } else {
      Seqs.ConsConcat(a, b);
      StringKeyedConcat(a[1..], b);
    }
  }

  /** Entries under other keys contribute nothing: the struct is that of the String-keyed entries. */
  lemma {:induction false} StructKeyFilter(es: seq<Entry>)
    ensures AppendStructMembers(es) == AppendStructMembers(StringKeyed(es))
  {
    if es != [] {
      StructKeyFilter(es[1..]);
      if es[0].key.StrKey? {
        var f := StringKeyed(es);
        assert f[0] == es[0] && f[1..] == StringKeyed(es[1..]);
      }
    }
  }

  /** Members are written in iteration order: the text of a concatenation is the concatenation of the texts. */
  lemma {:induction false} StructMembersConcat(a: seq<Entry>, b: seq<Entry>)
    requires AppendStructMembers(a).Success? && AppendStructMembers(b).Success?
    ensures AppendStructMembers(a + b) == Success(AppendStructMembers(a).value + AppendStructMembers(b).value)
  {
    if a == [] {
      assert a + b == b;
      assert AppendStructMembers(a).value + AppendStructMembers(b).value == AppendStructMembers(b).value;
    } else {
      Seqs.ConsConcat(a, b);
      StructMembersConcat(a[1..], b);
      if a[0].key.StrKey? {
        var m, ra, rb := AppendMember(a[0]).value, AppendStructMembers(a[1..]).value, AppendStructMembers(b).value;
        assert m + (ra + rb) == (m + ra) + rb;
      }
    }
  }

  /** A List is written element by element, in order. */
  lemma {:induction false} ArrayItemsConcat(a: seq<Native>, b: seq<Native>)
    requires AppendArrayItems(a).Success? && AppendArrayItems(b).Success?
    ensures AppendArrayItems(a + b) == Success(AppendArrayItems(a).value + AppendArrayItems(b).value)
  {
    if a == [] {
      assert a + b == b;
      assert AppendArrayItems(a).value + AppendArrayItems(b).value == AppendArrayItems(b).value;
    } else {
      var ab := a + b;
      Seqs.ConsConcat(a, b);
      ArrayItemsConcat(a[1..], b);
      var v, ra, rb := AppendValue(a[0]).value, AppendArrayItems(a[1..]).value, AppendArrayItems(b).value;
      assert AppendArrayItems(a) == Success(ItemText(v) + ra);
      assert AppendArrayItems(ab) == Success(ItemText(v) + (ra + rb));
      assert ItemText(v) + (ra + rb) == (ItemText(v) + ra) + rb;
    }
  }

  /** The payload of an encoded String contains no raw '<', and decoding its entities gives the String back. */
  lemma StringPayload(s: string)
    ensures '<' !in Xml.EscapeText(s) && Xml.Unescape(Xml.EscapeText(s)) == s
    ensures Xml.EscapeText(s) == s <==> '&' !in s && '<' !in s
  {
    Xml.EscapeTextIsEscape(s);
    Xml.UnescapeEscape(s);
    Xml.EscapeUnchanged(s);
  }

  /** The scalar test vectors. */
  lemma BooleanExamples()
    ensures AppendValue(NBool(true)) == Success("<boolean>1</boolean>")
    ensures AppendValue(NBool(false)) == Success("<boolean>0</boolean>")
  {
    assert AppendBooleanValue(true) == "<boolean>1</boolean>";
    assert AppendBooleanValue(false) == "<boolean>0</boolean>";
  }

  lemma IntegerExamples()
    ensures AppendValue(NInt(123)) == Success("<int>123</int>")
    ensures AppendValue(NInt(-123)) == Success("<int>-123</int>")
  {
    IntToStringExamples();
    assert AppendIntegerValue(123) == "<int>123</int>";
    assert AppendIntegerValue(-123) == "<int>-123</int>";
  }

  lemma DoubleExample()
    ensures AppendValue(NDouble("-123.45")) == Success("<double>-123.45</double>")
  {
    assert AppendDoubleValue("-123.45") == "<double>-123.45</double>";
  }

  /** A String without '&' or '<' is written as it is, as "Hello World" is. */
  lemma PlainStringValue(s: string)
    requires '&' !in s && '<' !in s
    ensures AppendValue(NStr(s)) == Success("<string>" + s + "</string>")
  {
    StringPayload(s);
  }

  lemma DataExample(b: seq<Base64.byte>)
    requires b == [0x14, 0xfb, 0x9c, 0x03, 0xd9, 0x7e]
    ensures AppendValue(NBytes(b)) == Success("<base64>" + "FPucA9l+" + "</base64>")
  {
    Base64.EncodeExample(b);
    assert AppendValue(NBytes(b)) == Success(AppendDataValue(b));
  }

  lemma DateExample(m: DateTime.Moment)
    requires m == DateTime.Moment(1972, 10, 5, 23, 3, 54)
    ensures AppendValue(NDate(m)) == Success("<dateTime.iso8601>" + "19721005T23:03:54" + "</dateTime.iso8601>")
  {
    DateTime.FormatExampleEvening(m);
  }

  /** An empty List and an empty Map. */
  lemma EmptyContainers()
    ensures AppendValue(NList([])) == Success("<array><data></data></array>")
    ensures AppendValue(NMap([])) == Success("<struct></struct>")
  {
    assert "<array><data>" + "" + "</data></array>" == "<array><data></data></array>";
    assert "<struct>" + "" + "</struct>" == "<struct></struct>";
  }

  /** The Map {"2" -> true} gives one member; a Map whose only key is not a String gives none. */
  lemma StructExample()
    ensures AppendValue(NMap([Entry(StrKey("2"), NBool(true))])) ==
      Success("<struct>" + MemberText("2", "<boolean>1</boolean>") + "</struct>")
    ensures AppendValue(NMap([Entry(OtherKey(7), NBool(true))])) == Success("<struct></struct>")
  {
    BooleanExamples();
    var e := Entry(StrKey("2"), NBool(true));
    assert [e][1..] == [];
    var m := MemberText("2", "<boolean>1</boolean>");
    assert m + "" == m;
    var o := Entry(OtherKey(7), NBool(true));
    assert [o][1..] == [];
    assert "<struct>" + "" + "</struct>" == "<struct></struct>";
  }

  /** The List [false, true] gives two items in order. */
  lemma ArrayExample()
    ensures AppendValue(NList([NBool(false), NBool(true)])) ==
      Success("<array><data>" + (ItemText("<boolean>0</boolean>") + ItemText("<boolean>1</boolean>")) + "</data></array>")
  {
    BooleanExamples();
    var xs := [NBool(false), NBool(true)];
    assert xs[1..] == [NBool(true)] && xs[1..][1..] == [];
    var i1 := ItemText("<boolean>1</boolean>");
    assert i1 + "" == i1;
  }

  /** XMLRPCParameters: the buffer the parameters are written into. */
  class XmlRpcParameters {
    var paramString: string

    /** A new object starts with an empty buffer. */
    constructor ()
      ensures paramString == ""
    {
      paramString := "";
    }

    /** The text written so far. */
    function GetParametersString(): (s: string)
      reads this
      ensures s == paramString
    {
      paramString
    }

    /**
     * Appends one parameter and returns this object. The opening tags are written before the
     * value is encoded, so when the value is unsupported the buffer is left ending in them.
     */
    method AppendParameter(param: Native) returns (r: Result<XmlRpcParameters, Error>)
      modifies this
      ensures AppendValue(param).Success? ==>
        r == Success(this) && paramString == old(paramString) + "<param><value>" + AppendValue(param).value + "</value></param>"
      ensures AppendValue(param).Failure? ==>
        r == Failure(UnsupportedParameterType) && paramString == old(paramString) + "<param><value>"
    {
      paramString := paramString + "<param><value>";
      var text := AppendValue(param);
      if text.Failure? {
        AppendValueFails(param);
        return Failure(text.error);
      }
      paramString := paramString + text.value + "</value></param>";
      return Success(this);
    }
  }
}
