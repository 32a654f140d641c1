/**
 * The parsed XML document as the codec sees it through the DOM: elements with a name and an
 * ordered list of child nodes, and text nodes. A comment or a processing instruction acts in the
 * codec as an empty text node does (a child with no children, no recognised name, and nothing
 * added to its parent's text content), so Text("") stands for it; attributes play no part.
 */
module Xml {
  import Seqs

  datatype Node = Element(name: string, children: seq<Node>) | Text(text: string)

  /** Node.getNodeName: the tag of an element, "#text" for a text node. */
  function NodeName(n: Node): string
  {
    match n
    case Element(name, _) => name
    case Text(_) => "#text"
  }

  /** Node.getChildNodes: a text node has none. */
  function Kids(n: Node): seq<Node>
  {
    match n
    case Element(_, cs) => cs
    case Text(_) => []
  }

  predicate IsElementNamed(n: Node, tag: string)
  {
    n.Element? && n.name == tag
  }

  /** Node.getTextContent: the text of a text node, the text of all descendants of an element. */
  function TextContent(n: Node): string
  {
    match n
    case Text(s) => s
    case Element(_, cs) => TextContentAll(cs)
  }

  function TextContentAll(cs: seq<Node>): string
  {
    if cs == [] then "" else TextContent(cs[0]) + TextContentAll(cs[1..])
  }

  /**
   * Element.getElementsByTagName: every element below n (n itself excluded) with the given tag,
   * in document order.
   */
  function ElementsByTagName(n: Node, tag: string): (r: seq<Node>)
    ensures forall k :: 0 <= k < |r| ==> IsElementNamed(r[k], tag)
  {
    match n
    case Text(_) => []
    case Element(_, cs) => ElementsIn(cs, tag)
  }

  /** The elements with the given tag among the nodes cs and below them, in document order. */
  function ElementsIn(cs: seq<Node>, tag: string): (r: seq<Node>)
    ensures forall k :: 0 <= k < |r| ==> IsElementNamed(r[k], tag)
  {
    if cs == [] then []
    else (if IsElementNamed(cs[0], tag) then [cs[0]] else []) + ElementsByTagName(cs[0], tag) + ElementsIn(cs[1..], tag)
  }

  /** A node that is itself, or has below it, an element with the tag. */
  predicate HasElementNamed(n: Node, tag: string)
  {
    IsElementNamed(n, tag) || |ElementsByTagName(n, tag)| > 0
  }

  /** The search finds nothing exactly when no node in cs is, or has below it, such an element. */
  lemma {:induction false} ElementsInEmpty(cs: seq<Node>, tag: string)
    ensures ElementsIn(cs, tag) == [] <==> forall k :: 0 <= k < |cs| ==> !HasElementNamed(cs[k], tag)
  {
    if cs != [] {
      ElementsInEmpty(cs[1..], tag);
      assert forall k :: 1 <= k < |cs| ==> cs[k] == cs[1..][k - 1];
    }
  }

  /** A child with the tag is the first match when no earlier child has a match. */
  lemma {:induction false} ElementsInFirst(cs: seq<Node>, tag: string, i: nat)
    requires i < |cs| && IsElementNamed(cs[i], tag)
    requires forall k :: 0 <= k < i ==> !HasElementNamed(cs[k], tag)
    ensures |ElementsIn(cs, tag)| > 0 && ElementsIn(cs, tag)[0] == cs[i]
    decreases i
  {
    if i > 0 {
      ElementsInFirst(cs[1..], tag, i - 1);
      assert ElementsIn(cs, tag) == ElementsIn(cs[1..], tag);
    }
  }

  /** The search goes through the nodes in document order: it distributes over concatenation. */
  lemma {:induction false} ElementsInConcat(a: seq<Node>, b: seq<Node>, tag: string)
    ensures ElementsIn(a + b, tag) == ElementsIn(a, tag) + ElementsIn(b, tag)
    decreases |a|
  {
    if a == [] {
      assert a + b == b;
    } else {
      Seqs.ConsConcat(a, b);
      ElementsInConcat(a[1..], b, tag);
    }
  }

  /**
   * Nothing is missed: the matches among cs are those before the k-th node, then the k-th node
   * itself when it has the tag, then the matches below it, then those after it.
   */
  lemma ElementsInAt(cs: seq<Node>, tag: string, k: nat)
    requires k < |cs|
    ensures ElementsIn(cs, tag) ==
      ElementsIn(cs[..k], tag) + (if IsElementNamed(cs[k], tag) then [cs[k]] else []) +
      ElementsByTagName(cs[k], tag) + ElementsIn(cs[k + 1..], tag)
  {
    assert cs == cs[..k] + ([cs[k]] + cs[k + 1..]);
    ElementsInConcat(cs[..k], [cs[k]] + cs[k + 1..], tag);
    assert ([cs[k]] + cs[k + 1..])[1..] == cs[k + 1..];
  }

  /** Every node with the tag, and every match below a node, is found. */
  lemma ElementsInComplete(cs: seq<Node>, tag: string, k: nat)
    requires k < |cs|
    ensures IsElementNamed(cs[k], tag) ==> cs[k] in ElementsIn(cs, tag)
    ensures forall x :: x in ElementsByTagName(cs[k], tag) ==> x in ElementsIn(cs, tag)
  {
    ElementsInAt(cs, tag, k);
  }

  /** Replacing every occurrence of one character by a text, as String.replaceAll does for a plain character. */
  function ReplaceChar(s: string, c: char, rep: string): (r: string)
    ensures c !in rep ==> c !in r
  {
    if s == [] then "" else (if s[0] == c then rep else [s[0]]) + ReplaceChar(s[1..], c, rep)
  }

  /** The encoder's escaping: first every '&' becomes "&amp;", then every '<' becomes "&lt;". */
  function EscapeText(s: string): string
  {
    ReplaceChar(ReplaceChar(s, '&', "&amp;"), '<', "&lt;")
  }

  function EscapeChar(c: char): string
  {
    if c == '&' then "&amp;" else if c == '<' then "&lt;" else [c]
  }

  /** The same escaping in one pass: each character on its own. */
  function Escape(s: string): (r: string)
    ensures '<' !in r
  {
    if s == [] then "" else EscapeChar(s[0]) + Escape(s[1..])
  }

  lemma {:induction false} ReplaceCharConcat(a: string, b: string, c: char, rep: string)
    ensures ReplaceChar(a + b, c, rep) == ReplaceChar(a, c, rep) + ReplaceChar(b, c, rep)
    decreases |a|
  {
    if a != [] {
      ReplaceCharConcat(a[1..], b, c, rep);
      Seqs.ConsConcat(a, b);
      var x := if a[0] == c then rep else [a[0]];
      assert ReplaceChar(a + b, c, rep) == x + (ReplaceChar(a[1..], c, rep) + ReplaceChar(b, c, rep));
    } else {
      assert a + b == b;
    }
  }

  /** The two passes escape each character independently: the second pass cannot touch what the first wrote. */
  lemma {:induction false} EscapeTextIsEscape(s: string)
    ensures EscapeText(s) == Escape(s)
    decreases |s|
  {
    if s != [] {
      var first := if s[0] == '&' then "&amp;" else [s[0]];
      var rest := ReplaceChar(s[1..], '&', "&amp;");
      assert ReplaceChar(s, '&', "&amp;") == first + rest;
      ReplaceCharConcat(first, rest, '<', "&lt;");
      assert ReplaceChar(first, '<', "&lt;") == EscapeChar(s[0]);
      EscapeTextIsEscape(s[1..]);
    }
  }

  /** The parser's decoding of the two entities the encoder writes; every other character stands for itself. */
  function Unescape(s: string): string
    decreases |s|
  {
    if |s| >= 5 && s[..5] == "&amp;" then "&" + Unescape(s[5..])
    else if |s| >= 4 && s[..4] == "&lt;" then "<" + Unescape(s[4..])
    else if s == [] then ""
    else [s[0]] + Unescape(s[1..])
  }

  lemma UnescapeStep(c: char, t: string)
    ensures Unescape(EscapeChar(c) + t) == [c] + Unescape(t)
  {
    if c == '&' {
      UnescapeAmp(t);
    } else if c == '<' {
      UnescapeLt(t);
    } else {
      UnescapePlain(c, t);
    }
  }

  lemma UnescapeAmp(t: string)
    ensures Unescape("&amp;" + t) == "&" + Unescape(t)
  {
    var e := "&amp;" + t;
    assert e[..5] == "&amp;" && e[5..] == t;
  }

  lemma UnescapeLt(t: string)
    ensures Unescape("&lt;" + t) == "<" + Unescape(t)
  {
    var e := "&lt;" + t;
    assert e[1] == 'l' && e[..4] == "&lt;" && e[4..] == t;
  }

  lemma UnescapePlain(c: char, t: string)
    requires c != '&' && c != '<'
    ensures Unescape([c] + t) == [c] + Unescape(t)
  {
    var e := [c] + t;
    assert e[0] == c && e[1..] == t;
  }

  /** Decoding the entities gives back exactly the text that was escaped. */
  lemma {:induction false} UnescapeEscape(s: string)
    ensures Unescape(Escape(s)) == s
    decreases |s|
  {
    if s != [] {
      UnescapeEscape(s[1..]);
      UnescapeStep(s[0], Escape(s[1..]));
      assert s == [s[0]] + s[1..];
    }
  }

  /** Escaping leaves a text unchanged exactly when it holds neither '&' nor '<'. */
  lemma {:induction false} EscapeUnchanged(s: string)
    ensures Escape(s) == s <==> '&' !in s && '<' !in s
    decreases |s|
  {
    if s != [] {
      EscapeUnchanged(s[1..]);
      EscapeLength(s[1..]);
      assert s == [s[0]] + s[1..];
      if s[0] != '&' && s[0] != '<' {
        assert Escape(s) == [s[0]] + Escape(s[1..]);
        assert Escape(s) == s ==> Escape(s)[1..] == s[1..];
      }
    }
  }

  lemma {:induction false} EscapeLength(s: string)
    ensures |Escape(s)| >= |s|
    decreases |s|
  {
    if s != [] {
      EscapeLength(s[1..]);
    }
  }

  /** The markup of a node: tags around elements, escaped character data for text. */
  function Serialize(n: Node): string
  {
    match n
    case Text(s) => Escape(s)
    case Element(name, cs) => "<" + name + ">" + SerializeAll(cs) + "</" + name + ">"
  }

  function SerializeAll(cs: seq<Node>): string
  {
    if cs == [] then "" else Serialize(cs[0]) + SerializeAll(cs[1..])
  }
}
