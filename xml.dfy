/** The parsed report as a tree. `XmlDocument.Load` itself is not modelled: the
    loader hands over the document element, or nothing when the file could not
    be parsed. Only element and text nodes occur (whitespace-only text is dropped
    because the document does not preserve whitespace). */
module Xml {
  import opened Base

  datatype Attr = Attr(name: string, value: string)

  datatype Node =
    | Element(name: string, attrs: seq<Attr>, children: seq<Node>)
    | Text(text: string)

  /** `XmlNode.Name`: the qualified tag of an element, `#text` for text. */
  function Name(n: Node): string
  {
    match n
    case Element(name, _, _) => name
    case Text(_) => "#text"
  }

  /** `XmlNode.ChildNodes`: a text node has none. */
  function ChildNodes(n: Node): seq<Node>
  {
    match n
    case Element(_, _, children) => children
    case Text(_) => []
  }

  /** `XmlNode.Attributes`, which is null on a text node. */
  function Attributes(n: Node): Option<seq<Attr>>
  {
    match n
    case Element(_, attrs, _) => Some(attrs)
    case Text(_) => None
  }

  /** `XmlNode.InnerText`: the text of all descendant text nodes, in document order. */
  function InnerText(n: Node): string
    decreases n
  {
    match n
    case Text(t) => t
    case Element(_, _, children) => InnerTextOf(children)
  }

  function InnerTextOf(ns: seq<Node>): string
    decreases ns
  {
    if ns == [] then "" else InnerText(ns[0]) + InnerTextOf(ns[1..])
  }

  /** `GetElementsByTagName(tag)` on a document: every element named `tag`,
      the document element included, in document (pre-)order. */
  function ElementsByTagName(n: Node, tag: string): (r: seq<Node>)
    ensures forall k :: 0 <= k < |r| ==> r[k].Element? && r[k].name == tag
    decreases n
  {
    match n
    case Text(_) => []
    case Element(name, _, children) =>
      (if name == tag then [n] else []) + ElementsByTagNameIn(children, tag)
  }

  function ElementsByTagNameIn(ns: seq<Node>, tag: string): (r: seq<Node>)
    ensures forall k :: 0 <= k < |r| ==> r[k].Element? && r[k].name == tag
    decreases ns
  {
    if ns == [] then [] else ElementsByTagName(ns[0], tag) + ElementsByTagNameIn(ns[1..], tag)
  }

  /** A document whose own element carries the tag finds that element first. */
  lemma FirstMatchIsOutermost(root: Node, tag: string)
    requires root.Element? && root.name == tag
    ensures |ElementsByTagName(root, tag)| > 0 && ElementsByTagName(root, tag)[0] == root
  {
  }

  /** A direct child with the tag is found, so a section placed under the
      document element is never missed. */
  lemma {:induction false} DirectChildFound(root: Node, k: int, tag: string)
    requires root.Element? && 0 <= k < |root.children|
    requires root.children[k].Element? && root.children[k].name == tag
    ensures root.children[k] in ElementsByTagName(root, tag)
  {
    InChildren(root.children, k, tag);
  }

  lemma {:induction false} InChildren(ns: seq<Node>, k: int, tag: string)
    requires 0 <= k < |ns| && ns[k].Element? && ns[k].name == tag
    ensures ns[k] in ElementsByTagNameIn(ns, tag)
    decreases ns
  {
    if k == 0 {
      assert ElementsByTagName(ns[0], tag)[0] == ns[0];
    } else {
      InChildren(ns[1..], k - 1, tag);
    }
  }
}
