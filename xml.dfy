/** Parsed XML elements, as ElementTree hands them to the dispatchers, and the
    few queries the dispatchers make of them. */
module Xml {

  datatype Option<+T> = None | Some(value: T)

  /** One element: its tag, its text (None when the element has no text),
      its attributes and its child elements in document order.  An attribute
      in the xml: namespace is keyed by its expanded name, as ElementTree
      reports it. */
  datatype Node = Node(tag: string, text: Option<string>, attrs: map<string, string>, children: seq<Node>)

  /** Expanded name of the xml:lang attribute (section 2.12 of the W3C XML 1.0
      Recommendation). */
  const XmlLang: string := "{http://www.w3.org/XML/1998/namespace}lang"

  /** `node.get(name)`: the attribute's value, or None when it is absent. */
  function Get(n: Node, name: string): (r: Option<string>)
    ensures r.Some? <==> name in n.attrs
    ensures r.Some? ==> r.value == n.attrs[name]
  {
    if name in n.attrs then Some(n.attrs[name]) else None
  }

  /** `node.get(name, default)`: the attribute's value, or `default` when the
      attribute is wholly absent (an empty value is kept). */
  function GetOr(n: Node, name: string, default: string): (r: string)
    ensures r == match Get(n, name) case Some(v) => v case None => default
  {
    if name in n.attrs then n.attrs[name] else default
  }

  /** Python 2's `unicode(text)` on an element's text: a present text is
      kept, and an absent one (None) becomes the string "None". */
  function Unicode(t: Option<string>): (r: Option<string>)
    ensures r.Some?
    ensures t.Some? ==> r == t
    ensures t == None ==> r.value == "None"
  {
    match t
    case None => Some("None")
    case Some(v) => Some(v)
  }

  /** The text of the last child with the given tag, or None when there is no
      such child: a local variable reassigned at every matching child. */
  function LastText(cs: seq<Node>, tag: string): Option<string>
  {
    if cs == [] then None
    else if cs[|cs| - 1].tag == tag then cs[|cs| - 1].text
    else LastText(cs[..|cs| - 1], tag)
  }

  /** LastText extended by one more child. */
  lemma LastTextSnoc(cs: seq<Node>, c: Node, tag: string)
    ensures LastText(cs + [c], tag) == if c.tag == tag then c.text else LastText(cs, tag)
  {
    assert (cs + [c])[..|cs|] == cs;
  }

  /** The children with the given tag, in document order. */
  function Select(cs: seq<Node>, tag: string): seq<Node>
  {
    if cs == [] then []
    else Select(cs[..|cs| - 1], tag) + (if cs[|cs| - 1].tag == tag then [cs[|cs| - 1]] else [])
  }

  /** Some child has the given tag. */
  predicate HasChild(cs: seq<Node>, tag: string)
  {
    exists j :: 0 <= j < |cs| && cs[j].tag == tag
  }

  /** Whether some child has the tag, extended by one more child. */
  lemma HasChildSnoc(cs: seq<Node>, c: Node, tag: string)
    ensures HasChild(cs + [c], tag) <==> HasChild(cs, tag) || c.tag == tag
  {
    if HasChild(cs, tag) {
      var j :| 0 <= j < |cs| && cs[j].tag == tag;
      assert (cs + [c])[j] == cs[j];
    }
    if c.tag == tag {
      assert (cs + [c])[|cs|] == c;
    }
    if HasChild(cs + [c], tag) && c.tag != tag {
      var j :| 0 <= j < |cs + [c]| && (cs + [c])[j].tag == tag;
      if j < |cs| {
        assert cs[j] == (cs + [c])[j];
      }
    }
  }

  /** LastText is None when no child has the tag. */
  lemma {:induction false} LastTextAbsent(cs: seq<Node>, tag: string)
    requires !HasChild(cs, tag)
    ensures LastText(cs, tag) == None
  {
    if cs != [] {
      var init := cs[..|cs| - 1];
      assert cs[|cs| - 1].tag != tag;
      assert forall j :: 0 <= j < |init| ==> init[j] == cs[j];
      LastTextAbsent(init, tag);
    }
  }

  /** LastText is the text of the last child that has the tag (which may
      itself be None). */
  lemma {:induction false} LastTextIsLastMatch(cs: seq<Node>, tag: string, j: nat)
    requires j < |cs| && cs[j].tag == tag
    requires forall k :: j < k < |cs| ==> cs[k].tag != tag
    ensures LastText(cs, tag) == cs[j].text
  {
    if j < |cs| - 1 {
      var init := cs[..|cs| - 1];
      assert cs[|cs| - 1].tag != tag;
      assert forall k :: j < k < |init| ==> init[k] == cs[k];
      LastTextIsLastMatch(init, tag, j);
    }
  }

  /** Select keeps exactly the children with the tag, in order: its members
      all carry the tag, and it has as many members as there are such
      children up to any point. */
  lemma {:induction false} SelectIsTagged(cs: seq<Node>, tag: string)
    ensures forall j :: 0 <= j < |Select(cs, tag)| ==> Select(cs, tag)[j].tag == tag
    ensures |Select(cs, tag)| <= |cs|
    ensures |Select(cs, tag)| == 0 <==> !HasChild(cs, tag)
  {
    if cs != [] {
      var init := cs[..|cs| - 1];
      SelectIsTagged(init, tag);
      assert HasChild(init, tag) ==> HasChild(cs, tag);
      if HasChild(cs, tag) && cs[|cs| - 1].tag != tag {
        var j :| 0 <= j < |cs| && cs[j].tag == tag;
        assert init[j] == cs[j];
      }
    }
  }
}
