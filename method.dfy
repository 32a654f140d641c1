/**
 * XMLRPCMethod: a method name that is never empty, and the methodCall envelope that carries
 * the encoded parameters.
 */
module Method {
  import opened Wrappers
  import opened Exceptions
  import opened Parameters

  /** The name can never be empty; the record's constructor enforces it. */
  type MethodName = s: string | |s| > 0 witness "m"

  datatype XmlRpcMethod = XmlRpcMethod(name: MethodName)
  {
    /** getMethodString: the envelope around this method's name and the parameters' text. */
    function GetMethodString(params: XmlRpcParameters): (s: string)
      reads params
      ensures s == MethodString(name, params.paramString)
    {
      MethodString(name, params.GetParametersString())
    }
  }

  const EMPTY_NAME := "Method name cannot be empty"

  /** The record constructor: a missing (null) or empty name is an IllegalArgumentException. */
  function NewMethod(name: Option<string>): (r: Result<XmlRpcMethod, Error>)
    ensures r.Success? <==> name.Some? && |name.value| > 0
    ensures r.Success? ==> r.value.name == name.value
    ensures r.Failure? ==> r.error == IllegalArgument(EMPTY_NAME)
  {
    if name.None? || |name.value| == 0 then Failure(IllegalArgument(EMPTY_NAME))
    else Success(XmlRpcMethod(name.value))
  }

  const PROLOG := "<?xml version=\"1.0\"?>"
  const CALL_OPEN := "<methodCall><methodName>"
  const NAME_CLOSE := "</methodName><params>"
  const CALL_CLOSE := "</params></methodCall>"

  /** Everything before the name. */
  const HEAD := PROLOG + CALL_OPEN

  /**
   * The methodCall document: the prolog, the name inserted verbatim (no escaping), the
   * parameters' text unchanged between <params> and </params></methodCall>.
   */
  function MethodString(name: string, params: string): (s: string)
    ensures |s| == |HEAD| + |name| + |NAME_CLOSE| + |params| + |CALL_CLOSE|
    ensures s[..|HEAD|] == HEAD
    ensures s[|HEAD|..|HEAD| + |name|] == name
    ensures s[|HEAD| + |name|..|HEAD| + |name| + |NAME_CLOSE|] == NAME_CLOSE
    ensures s[|HEAD| + |name| + |NAME_CLOSE|..|s| - |CALL_CLOSE|] == params
    ensures s[|s| - |CALL_CLOSE|..] == CALL_CLOSE
  {
    var s := HEAD + name + NAME_CLOSE + params + CALL_CLOSE;
    Sections(HEAD, name, NAME_CLOSE, params, CALL_CLOSE);
    s
  }

  lemma Sections(a: string, b: string, c: string, d: string, e: string)
    ensures var s := a + b + c + d + e;
      var i, j, k, l := |a|, |a| + |b|, |a| + |b| + |c|, |a| + |b| + |c| + |d|;
      |s| == l + |e| && s[..i] == a && s[i..j] == b && s[j..k] == c && s[k..l] == d && s[l..] == e
  {
  }

  /**
   * A name without '<' ends at the first '<' after the head, so two envelopes are equal only
   * for equal names and equal parameter texts.
   */
  lemma MethodStringInjective(n1: string, p1: string, n2: string, p2: string)
    requires '<' !in n1 && '<' !in n2
    requires MethodString(n1, p1) == MethodString(n2, p2)
    ensures n1 == n2 && p1 == p2
  {
    NameEnds(n1, p1);
    NameEnds(n2, p2);
    if |n1| < |n2| {
      assert false;
    } else if |n2| < |n1| {
      assert false;
    }
  }

  /** The name is copied character by character right after the head, and a '<' follows it. */
  lemma NameEnds(n: string, p: string)
    ensures var s := MethodString(n, p);
      s[|HEAD| + |n|] == '<' && forall k :: 0 <= k < |n| ==> s[|HEAD| + k] == n[k]
  {
    var s := MethodString(n, p);
    assert s[|HEAD| + |n|] == s[|HEAD| + |n|..|HEAD| + |n| + |NAME_CLOSE|][0];
    forall k | 0 <= k < |n| ensures s[|HEAD| + k] == n[k] {
      assert s[|HEAD| + k] == s[|HEAD|..|HEAD| + |n|][k];
    }
  }

  /** Any non-empty name is accepted, and the envelope holds it verbatim, even its '<' and '&'. */
  lemma NameVerbatim(name: string, params: string)
    requires |name| > 0
    ensures NewMethod(Some(name)).Success?
    ensures var s := MethodString(NewMethod(Some(name)).value.name, params);
      s[|HEAD|..|HEAD| + |name|] == name
  {
  }

  /** An empty name and a missing name are both refused. */
  lemma EmptyNameRefused()
    ensures NewMethod(Some("")) == Failure(IllegalArgument(EMPTY_NAME))
    ensures NewMethod(None) == Failure(IllegalArgument(EMPTY_NAME))
  {
  }
}
