/**
 * Fetched pages, as the program's fixed goquery selectors see them.
 *
 * CSS selector matching itself is not part of this model: a Document holds,
 * for every selector main.go applies, the selection it yields, in document
 * order. What the program then does with a selection (Text, Attr, Eq,
 * Contents, FilterFunction, Length) is modelled here.
 */
module Html {
  import opened Strings

  /** A selected element: its attributes and its text content (goquery's Text). */
  datatype Element = Element(attrs: map<string, string>, text: string)

  /** One child node, as Contents() returns it. */
  datatype Node =
    | TextNode(data: string)
    | ElementNode(tag: string, children: seq<Node>)
    | CommentNode(data: string)

  /** One row of `table.movieList > tbody > tr`, through the selectors Search applies to it. */
  datatype Row = Row(
    titleLinks: seq<Element>,   // td > h2 > a
    summary: seq<Element>,      // td > span:nth-child(4)
    details: seq<Element>)      // td > span > span.dr

  datatype Document = Document(
    rows: seq<Row>,             // table.movieList > tbody > tr
    details: seq<Element>,      // .info > table > tbody > tr > td:nth-child(2) > div
    description: seq<Node>,     // Contents() of .info > table > tbody > tr > td:nth-child(3) > span > div
    scripts: seq<Element>,      // script[type="text/javascript"]
    iframes: seq<Element>,      // iframe
    headings: seq<Element>,     // h2
    anchors: seq<Element>)      // a

  /** Selection.Text: the texts of all selected elements, concatenated. */
  function Text(sel: seq<Element>): string {
    if sel == [] then [] else sel[0].text + Text(sel[1..])
  }

  /** Selection.Attr: the attribute of the FIRST selected element, or "" when it has none. */
  function Attr(sel: seq<Element>, name: string): string {
    if sel != [] && name in sel[0].attrs then sel[0].attrs[name] else []
  }

  /** Selection.Eq(i): the i-th element alone, or the empty selection when out of range. */
  function Eq(sel: seq<Element>, i: nat): seq<Element> {
    if i < |sel| then [sel[i]] else []
  }

  /** Text of one node: the data of every text node in its subtree, in order. */
  function NodeText(n: Node): string
    decreases n, 1
  {
    match n
    case TextNode(d) => d
    case ElementNode(_, children) => NodesText(children)
    case CommentNode(_) => []
  }

  /** Text of a selection of nodes. */
  function NodesText(ns: seq<Node>): string
    decreases ns, 0
  {
    if ns == [] then [] else NodeText(ns[0]) + NodesText(ns[1..])
  }

  /** FilterFunction(Type == TextNode): keeps the text nodes, in order. */
  function TextChildren(ns: seq<Node>): (r: seq<Node>)
    ensures forall k :: 0 <= k < |r| ==> r[k].TextNode?
    ensures |r| <= |ns|
    ensures |ns| == 1 ==> r == (if ns[0].TextNode? then ns else [])
  {
    if ns == [] then []
    else if ns[0].TextNode? then [ns[0]] + TextChildren(ns[1..])
    else TextChildren(ns[1..])
  }

  /**
   * The description ScrapeMovie stores: the text of the container's direct
   * text-node children only, with surrounding white space trimmed.
   */
  function Description(contents: seq<Node>): (d: string)
    ensures d == [] || (!IsSpace(d[0]) && !IsSpace(d[|d| - 1]))
  {
    Trim(NodesText(TextChildren(contents)), IsSpace)
  }

  /** The filter works child by child: filtering a concatenation filters each part. */
  lemma {:induction false} TextChildrenConcat(a: seq<Node>, b: seq<Node>)
    ensures TextChildren(a + b) == TextChildren(a) + TextChildren(b)
  {
    if a == [] {
      assert a + b == b;
    } else {
      assert (a + b)[0] == a[0];
      assert (a + b)[1..] == a[1..] + b;
      TextChildrenConcat(a[1..], b);
    }
  }

  lemma {:induction false} NodesTextConcat(a: seq<Node>, b: seq<Node>)
    ensures NodesText(a + b) == NodesText(a) + NodesText(b)
  {
    if a == [] {
      assert a + b == b;
    } else {
      assert (a + b)[0] == a[0];
      assert (a + b)[1..] == a[1..] + b;
      NodesTextConcat(a[1..], b);
    }
  }

  /**
   * No text of an element or comment child reaches the description: putting
   * any non-text node anywhere among the children leaves it unchanged, and so
   * does anything inside that node.
   */
  lemma ElementTextExcluded(contents: seq<Node>, k: nat, n: Node)
    requires k <= |contents|
    requires !n.TextNode?
    ensures Description(contents[..k] + [n] + contents[k..]) == Description(contents)
  {
    var before, after := contents[..k], contents[k..];
    TextChildrenConcat(before + [n], after);
    TextChildrenConcat(before, [n]);
    TextChildrenConcat(before, after);
    assert [n][1..] == [];
    assert TextChildren([n]) == [];
    assert TextChildren(before + [n]) == TextChildren(before);
    assert before + after == contents;
  }

  /** Each text child contributes its data, in document order. */
  lemma {:induction false} DescriptionOfText(data: seq<string>, ns: seq<Node>)
    requires |ns| == |data|
    requires forall k :: 0 <= k < |ns| ==> ns[k] == TextNode(data[k])
    ensures Description(ns) == Trim(Concat(data), IsSpace)
  {
    TextOnly(data, ns);
  }

  /** Concatenation of a list of strings. */
  function Concat(parts: seq<string>): string {
    if parts == [] then [] else parts[0] + Concat(parts[1..])
  }

  lemma {:induction false} TextOnly(data: seq<string>, ns: seq<Node>)
    requires |ns| == |data|
    requires forall k :: 0 <= k < |ns| ==> ns[k] == TextNode(data[k])
    ensures TextChildren(ns) == ns
    ensures NodesText(ns) == Concat(data)
  {
    if ns != [] {
      TextOnly(data[1..], ns[1..]);
    }
  }
}
