/**
 * An in-memory XML document, standing in for the dom4j tree the parser reads,
 * and three of the XPath queries the parser asks of it, each written out as a
 * tree function:
 *   - `@attr` on a node (`@name`, `@covered`, `@missed`): `ValueOf`;
 *   - `tag[@attr='value']` relative to a node (its first matching child): `FirstChild`;
 *   - `//tag` on a document (every matching element, in document order): `SelectAll`.
 */
module Dom {
  import opened JavaLang

  /** An element: its tag, its attributes (unique by name) and its child elements in order. */
  datatype Element = Element(tag: string, attributes: map<string, string>, children: seq<Element>)

  /** A parsed document: it always has exactly one root element. */
  datatype Document = Document(root: Element)

  /** `node.valueOf("@name")`: the attribute's text, or "" when the element has no such attribute. */
  function ValueOf(e: Element, name: string): (v: string)
    ensures name in e.attributes ==> v == e.attributes[name]
    ensures v != "" ==> name in e.attributes
  {
    if name in e.attributes then e.attributes[name] else ""
  }

  /** Does `e` satisfy the XPath step `tag[@attr='value']`? */
  predicate Matches(e: Element, tag: string, attr: string, value: string)
  {
    e.tag == tag && attr in e.attributes && e.attributes[attr] == value
  }

  /**
   * `node.selectSingleNode("tag[@attr='value']")`: the position, among `cs`
   * (a node's children), of the first child that matches, if any.
   */
  function FirstChild(cs: seq<Element>, tag: string, attr: string, value: string): (r: Option<nat>)
    ensures r.Some? ==> r.value < |cs| && Matches(cs[r.value], tag, attr, value)
    ensures r.Some? ==> forall j :: 0 <= j < r.value ==> !Matches(cs[j], tag, attr, value)
    ensures r.None? ==> forall j :: 0 <= j < |cs| ==> !Matches(cs[j], tag, attr, value)
  {
    if cs == [] then None
    else if Matches(cs[0], tag, attr, value) then Some(0)
    else match FirstChild(cs[1..], tag, attr, value)
      case None => None
      case Some(k) => Some(k + 1)
  }

  /** The elements of the subtree rooted at `e`, in document order (preorder: a node before its children). */
  function Preorder(e: Element): (r: seq<Element>)
    ensures |r| > 0 && r[0] == e
    decreases e
  {
    [e] + PreorderForest(e.children)
  }

  /** The preorders of `es`, one after the other. */
  function PreorderForest(es: seq<Element>): seq<Element>
    decreases es
  {
    if es == [] then [] else Preorder(es[0]) + PreorderForest(es[1..])
  }

  /** The elements of `es` whose tag is `tag`, keeping their order. */
  function Filter(es: seq<Element>, tag: string): (r: seq<Element>)
    ensures |r| <= |es|
    ensures forall i :: 0 <= i < |r| ==> r[i].tag == tag
  {
    if es == [] then []
    else (if es[0].tag == tag then [es[0]] else []) + Filter(es[1..], tag)
  }

  /** Filtering keeps exactly the elements with that tag. */
  lemma {:induction false} FilterMembers(es: seq<Element>, tag: string, x: Element)
    ensures x in Filter(es, tag) <==> x in es && x.tag == tag
  {
    if es != [] {
      FilterMembers(es[1..], tag, x);
      assert es == [es[0]] + es[1..];
    }
  }

  /** `document.selectNodes("//tag")`: every element of the document with that tag, in document order. */
  function SelectAll(d: Document, tag: string): (r: seq<Element>)
    ensures forall i :: 0 <= i < |r| ==> r[i].tag == tag
    ensures d.root.tag == tag ==> |r| > 0 && r[0] == d.root
  {
    Filter(Preorder(d.root), tag)
  }

  /** `//tag` selects exactly the elements of the document that carry the tag. */
  lemma SelectAllMembers(d: Document, tag: string, x: Element)
    ensures x in SelectAll(d, tag) <==> x in Preorder(d.root) && x.tag == tag
  {
    FilterMembers(Preorder(d.root), tag, x);
  }

  /** `//tag` reaches below the root: every element tagged `tag` in a child's subtree is selected. */
  lemma SelectAllReachesChildren(d: Document, tag: string, i: nat, x: Element)
    requires i < |d.root.children| && x in Preorder(d.root.children[i]) && x.tag == tag
    ensures x in SelectAll(d, tag)
  {
    PreorderContainsChildren(d.root, i, x);
    SelectAllMembers(d, tag, x);
  }

  /** The number of elements tagged `tag` in the subtree rooted at `e`, counted over the tree itself. */
  function CountTag(e: Element, tag: string): nat
    decreases e
  {
    (if e.tag == tag then 1 else 0) + CountTagForest(e.children, tag)
  }

  function CountTagForest(es: seq<Element>, tag: string): nat
    decreases es
  {
    if es == [] then 0 else CountTag(es[0], tag) + CountTagForest(es[1..], tag)
  }

  /** Filtering keeps document order: it distributes over concatenation. */
  lemma {:induction false} FilterAppend(a: seq<Element>, b: seq<Element>, tag: string)
    ensures Filter(a + b, tag) == Filter(a, tag) + Filter(b, tag)
  {
    if a != [] {
      assert (a + b)[1..] == a[1..] + b;
      FilterAppend(a[1..], b, tag);
    } else {
      assert a + b == b;
    }
  }

  /** The query `//tag` returns exactly as many elements as the tree holds with that tag. */
  lemma {:induction false} SelectAllCount(e: Element, tag: string)
    ensures |Filter(Preorder(e), tag)| == CountTag(e, tag)
    decreases e, 1
  {
    FilterAppend([e], PreorderForest(e.children), tag);
    SelectAllCountForest(e.children, tag);
  }

  lemma {:induction false} SelectAllCountForest(es: seq<Element>, tag: string)
    ensures |Filter(PreorderForest(es), tag)| == CountTagForest(es, tag)
    decreases es, 0
  {
    if es != [] {
      FilterAppend(Preorder(es[0]), PreorderForest(es[1..]), tag);
      SelectAllCount(es[0], tag);
      SelectAllCountForest(es[1..], tag);
    }
  }

  /**
   * Document order: the subtree of a node comes right after the node, and the
   * subtrees of its children follow one another in the children's order.
   */
  lemma {:induction false} PreorderForestAppend(a: seq<Element>, b: seq<Element>)
    ensures PreorderForest(a + b) == PreorderForest(a) + PreorderForest(b)
  {
    if a != [] {
      assert (a + b)[1..] == a[1..] + b;
      PreorderForestAppend(a[1..], b);
    } else {
      assert a + b == b;
    }
  }

  /** Every element of a child's subtree is found by a search of the parent's subtree. */
  lemma {:induction false} PreorderContainsChildren(e: Element, i: nat, x: Element)
    requires i < |e.children| && x in Preorder(e.children[i])
    ensures x in Preorder(e)
  {
    var cs := e.children;
    assert cs == cs[..i] + ([cs[i]] + cs[i + 1..]);
    PreorderForestAppend(cs[..i], [cs[i]] + cs[i + 1..]);
    PreorderForestAppend([cs[i]], cs[i + 1..]);
    assert PreorderForest([cs[i]]) == Preorder(cs[i]) + PreorderForest([]);
  }

  /** `//tag` below a node: the node itself when it matches, then what its children's subtrees hold, in order. */
  lemma SelectSubtree(e: Element, tag: string)
    ensures Filter(Preorder(e), tag) ==
      (if e.tag == tag then [e] else []) + Filter(PreorderForest(e.children), tag)
  {
  }

  /** `//tag` over a list of subtrees: the first subtree's matches, then the rest's. */
  lemma SelectForest(es: seq<Element>, tag: string)
    requires es != []
    ensures Filter(PreorderForest(es), tag) ==
      Filter(Preorder(es[0]), tag) + Filter(PreorderForest(es[1..]), tag)
  {
    FilterAppend(Preorder(es[0]), PreorderForest(es[1..]), tag);
  }
}
