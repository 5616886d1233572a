/** The two halves of the library put together: a document decoded by
    element.rs and its root converted by map.rs. */
module Pipeline {
  import opened Wrappers
  import opened Wire
  import opened Buf
  import opened Elements
  import opened ElementLaws
  import opened ElementCodec
  import opened Maps

  /** A root whose children are an empty "levels" node and a "Style"
      node, as a tree over a table that holds those names at 1 and 2. */
  function MinimalRoot(): Node {
    Node(0, [], [Node(1, [], []), Node(2, [], [])])
  }

  /** The same root without its "Style" node. */
  function StylelessRoot(): Node {
    Node(0, [], [Node(1, [], [])])
  }

  /** The element of the smallest valid map, whatever the root is called. */
  lemma MinimalRootElement(t: StringTable)
    requires |t| >= 3 && t[1] == "levels" && t[2] == "Style"
    ensures Encodable(MinimalRoot()) && InTable(t, MinimalRoot())
    ensures Resolve(t, MinimalRoot())
            == Element(t[0], map[], [Element("levels", map[], []), Element("Style", map[], [])])
  {
    assert Resolve(t, Node(1, [], [])) == Element("levels", map[], []);
    assert Resolve(t, Node(2, [], [])) == Element("Style", map[], []);
  }

  /** A document holding only an empty "levels" node and a "Style" node
      decodes, and its root is a map with no levels and no filler. */
  lemma MinimalDocument(d: seq<byte>, format: string, package: string, t: StringTable)
    requires Short(format) && Short(package) && forall i :: 0 <= i < |t| ==> Short(t[i])
    requires |t| >= 3 && t[1] == "levels" && t[2] == "Style"
    requires At(d, 0, EncodeHeader(format, package, t) + EncodeNode(MinimalRoot()))
    ensures Decode(d).Success?
    ensures Project(Decode(d).value) == Success(Map([], [], Style))
  {
    MinimalRootElement(t);
    DecodeRoundTrip(d, format, package, t, MinimalRoot());
    var root := Element(t[0], map[], [Element("levels", map[], []), Element("Style", map[], [])]);
    assert root.children[..1] == [Element("levels", map[], [])];
    assert Scan(root.children) == Success(Found(Some([]), None, Some(Style)));
  }

  /** Without the "Style" node the same document decodes, but its root
      is not a map. */
  lemma StylelessDocument(d: seq<byte>, format: string, package: string, t: StringTable)
    requires Short(format) && Short(package) && forall i :: 0 <= i < |t| ==> Short(t[i])
    requires |t| >= 2 && t[1] == "levels"
    requires At(d, 0, EncodeHeader(format, package, t) + EncodeNode(StylelessRoot()))
    ensures Decode(d).Success?
    ensures Project(Decode(d).value) == Failure(MissingNode("Style"))
  {
    assert Resolve(t, Node(1, [], [])) == Element("levels", map[], []);
    assert Encodable(StylelessRoot()) && InTable(t, StylelessRoot());
    DecodeRoundTrip(d, format, package, t, StylelessRoot());
    var root := Element(t[0], map[], [Element("levels", map[], [])]);
    assert Resolve(t, StylelessRoot()) == root;
    assert Scan(root.children) == Success(Found(Some([]), None, None));
  }
}
