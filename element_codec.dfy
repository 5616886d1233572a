/** The pre-order element read of element.rs checked against an encoder
    of whole trees: a tree written the way the reader expects reads back as
    itself, with its names and keys looked up in the string table. */
module ElementCodec {
  import opened Wrappers
  import opened Wire
  import opened Buf
  import opened Elements
  import opened ElementLaws

  /** An element as it is written: its name and its attribute keys are
      indices into the string table, its attributes are in written order. */
  datatype Node = Node(name: i16, attrs: seq<(i16, Value)>, children: seq<Node>)

  /** A tree the format can hold: at most 255 attributes (a u8 count) and
      at most i16::MAX children per element, and short strings. */
  predicate Encodable(n: Node)
    decreases n
  {
    && |n.attrs| < 0x100 && |n.children| < 0x8000
    && (forall i :: 0 <= i < |n.attrs| ==> Writable(n.attrs[i].1))
    && (forall i :: 0 <= i < |n.children| ==> Encodable(n.children[i]))
  }

  /** Every index of the tree names an entry of the table. */
  predicate InTable(t: StringTable, n: Node)
    decreases n
  {
    && 0 <= n.name < |t|
    && (forall i :: 0 <= i < |n.attrs| ==> 0 <= n.attrs[i].0 < |t|)
    && (forall i :: 0 <= i < |n.children| ==> InTable(t, n.children[i]))
  }

  // ---------------------------------------------------------------
  // The encoder
  // ---------------------------------------------------------------

  /** One attribute: key index, tag, payload. */
  function EncodeAttr(a: (i16, Value)): seq<byte>
    requires Writable(a.1)
  {
    LeBytes16(a.0) + ([TagOf(a.1)] + EncodeValue(a.1))
  }

  function EncodeAttrs(attrs: seq<(i16, Value)>): seq<byte>
    requires forall i :: 0 <= i < |attrs| ==> Writable(attrs[i].1)
    decreases |attrs|, 1
  {
    if attrs == [] then [] else EncodeAttrsFrom(attrs)
  }

  function EncodeAttrsFrom(attrs: seq<(i16, Value)>): seq<byte>
    requires attrs != [] && forall i :: 0 <= i < |attrs| ==> Writable(attrs[i].1)
    decreases |attrs|, 0
  {
    EncodeAttr(attrs[0]) + EncodeAttrs(attrs[1..])
  }

  /** One element: name index, u8 attribute count, the attributes, i16
      child count, the children. */
  function EncodeNode(n: Node): seq<byte>
    requires Encodable(n)
    decreases n, 2
  {
    LeBytes16(n.name) + ([|n.attrs|] + (EncodeAttrs(n.attrs) + (LeBytes16(|n.children|) + EncodeNodes(n.children))))
  }

  function EncodeNodes(cs: seq<Node>): seq<byte>
    requires forall i :: 0 <= i < |cs| ==> Encodable(cs[i])
    decreases cs, 1
  {
    if cs == [] then [] else EncodeNodesFrom(cs)
  }

  function EncodeNodesFrom(cs: seq<Node>): seq<byte>
    requires cs != [] && forall i :: 0 <= i < |cs| ==> Encodable(cs[i])
    decreases cs, 0
  {
    EncodeNode(cs[0]) + EncodeNodes(cs[1..])
  }

  // ---------------------------------------------------------------
  // The tree a reader should see
  // ---------------------------------------------------------------

  function ResolveAttrs(t: StringTable, attrs: seq<(i16, Value)>): (ps: seq<(string, Value)>)
    requires forall i :: 0 <= i < |attrs| ==> 0 <= attrs[i].0 < |t|
    ensures |ps| == |attrs|
  {
    if attrs == [] then [] else [(t[attrs[0].0], attrs[0].1)] + ResolveAttrs(t, attrs[1..])
  }

  /** The element of a tree: names looked up, attributes inserted in
      written order (a repeated key keeps its last value). */
  function Resolve(t: StringTable, n: Node): Element
    requires InTable(t, n)
    decreases n
  {
    Element(t[n.name], Insert(map[], ResolveAttrs(t, n.attrs)), ResolveAll(t, n.children))
  }

  function ResolveAll(t: StringTable, cs: seq<Node>): (es: seq<Element>)
    requires forall i :: 0 <= i < |cs| ==> InTable(t, cs[i])
    ensures |es| == |cs|
    decreases cs
  {
    if cs == [] then [] else [Resolve(t, cs[0])] + ResolveAll(t, cs[1..])
  }

  // ---------------------------------------------------------------
  // Fixed-width fields
  // ---------------------------------------------------------------

  lemma I16At(d: seq<byte>, p: nat, v: i16)
    requires At(d, p, LeBytes16(v))
    ensures p + 2 <= |d| && ReadI16Le(d, p) == Success(Parsed(v, p + 2))
  {
    AtIndex(d, p, LeBytes16(v), 0);
    AtIndex(d, p, LeBytes16(v), 1);
  }

  lemma U8At(d: seq<byte>, p: nat, b: byte)
    requires At(d, p, [b])
    ensures p + 1 <= |d| && ReadU8(d, p) == Success(Parsed(b, p + 1))
  {
    AtIndex(d, p, [b], 0);
  }

  // ---------------------------------------------------------------
  // Attributes
  // ---------------------------------------------------------------

  /** An attribute, given what its three fields read as. */
  lemma AttrJoin(d: seq<byte>, p: nat, t: StringTable, k: i16, tag: byte, v: Value, e: nat)
    requires p + 3 <= |d| && 0 <= k < |t|
    requires ReadI16Le(d, p) == Success(Parsed(k, p + 2))
    requires ReadU8(d, p + 2) == Success(Parsed(tag, p + 3))
    requires ReadValue(d, p + 3, t, tag) == Success(Parsed(v, e))
    ensures ReadAttribute(d, p, t) == Success(Parsed((t[k], v), e))
  {
  }

  /** An attribute read back: its key looked up, its value as written. */
  lemma AttrRoundTrip(d: seq<byte>, p: nat, t: StringTable, a: (i16, Value))
    requires 0 <= a.0 < |t| && Writable(a.1) && At(d, p, EncodeAttr(a))
    ensures ReadAttribute(d, p, t) == Success(Parsed((t[a.0], a.1), p + |EncodeAttr(a)|))
  {
    var payload := EncodeValue(a.1);
    AtSplit(d, p, LeBytes16(a.0), [TagOf(a.1)] + payload);
    I16At(d, p, a.0);
    AtSplit(d, p + 2, [TagOf(a.1)], payload);
    U8At(d, p + 2, TagOf(a.1));
    ValueRoundTrip(d, p + 3, t, a.1);
    AttrJoin(d, p, t, a.0, TagOf(a.1), a.1, p + 3 + |payload|);
  }

  /** An attribute read, then `n - 1` more: `n` attributes. */
  lemma AttrsJoin(d: seq<byte>, p: nat, t: StringTable, n: nat, kv: (string, Value), q: nat,
                  rest: seq<(string, Value)>, e: nat)
    requires n > 0 && p <= |d| && ReadAttribute(d, p, t) == Success(Parsed(kv, q))
    requires q <= |d| && ReadAttributes(d, q, t, n - 1) == Success(Parsed(rest, e))
    ensures ReadAttributes(d, p, t, n) == Success(Parsed([kv] + rest, e))
  {
  }

  /** Reading attributes one after the other from `p` gives `ps` and stops at `e`. */
  ghost predicate AttrsAt(d: seq<byte>, p: nat, t: StringTable, ps: seq<(string, Value)>, e: nat)
    decreases |ps|
  {
    if ps == [] then p == e
    else p <= |d| && ReadAttribute(d, p, t).Success? && ReadAttribute(d, p, t).value.val == ps[0]
         && AttrsAt(d, ReadAttribute(d, p, t).value.next, t, ps[1..], e)
  }

  lemma {:induction false} ReadAttributesAt(d: seq<byte>, p: nat, t: StringTable, ps: seq<(string, Value)>, e: nat, n: nat)
    requires p <= |d| && AttrsAt(d, p, t, ps, e) && n == |ps|
    ensures ReadAttributes(d, p, t, n) == Success(Parsed(ps, e))
    decreases |ps|
  {
    if ps != [] {
      var r := ReadAttribute(d, p, t).value;
      ReadAttributesAt(d, r.next, t, ps[1..], e, n - 1);
      AttrsJoin(d, p, t, n, ps[0], r.next, ps[1..], e);
      assert [ps[0]] + ps[1..] == ps;
    }
  }

  lemma AttrsAtCons(d: seq<byte>, p: nat, t: StringTable, ps: seq<(string, Value)>, kv: (string, Value),
                    rest: seq<(string, Value)>, q: nat, e: nat)
    requires ps == [kv] + rest
    requires p <= |d| && ReadAttribute(d, p, t) == Success(Parsed(kv, q))
    requires AttrsAt(d, q, t, rest, e)
    ensures AttrsAt(d, p, t, ps, e)
  {
    assert ps[1..] == rest;
  }

  /** Attributes laid out at `p`: the first, then the others right after it. */
  lemma AttrsSplit(d: seq<byte>, p: nat, attrs: seq<(i16, Value)>)
    requires attrs != [] && forall i :: 0 <= i < |attrs| ==> Writable(attrs[i].1)
    requires At(d, p, EncodeAttrs(attrs))
    ensures At(d, p, EncodeAttr(attrs[0]))
    ensures At(d, p + |EncodeAttr(attrs[0])|, EncodeAttrs(attrs[1..]))
    ensures |EncodeAttrs(attrs)| == |EncodeAttr(attrs[0])| + |EncodeAttrs(attrs[1..])|
  {
    var head, tail := EncodeAttr(attrs[0]), EncodeAttrs(attrs[1..]);
    assert EncodeAttrs(attrs) == head + tail;
    AtSplit(d, p, head, tail);
  }

  lemma {:induction false} EncodedAttrsAt(d: seq<byte>, p: nat, t: StringTable, attrs: seq<(i16, Value)>,
                                          ps: seq<(string, Value)>, e: nat)
    requires forall i :: 0 <= i < |attrs| ==> 0 <= attrs[i].0 < |t| && Writable(attrs[i].1)
    requires At(d, p, EncodeAttrs(attrs))
    requires ps == ResolveAttrs(t, attrs) && e == p + |EncodeAttrs(attrs)|
    ensures AttrsAt(d, p, t, ps, e)
    decreases |attrs|
  {
    if attrs == [] {
      assert ps == [] && e == p;
    } else {
      var q := p + |EncodeAttr(attrs[0])|;
      AttrsSplit(d, p, attrs);
      AttrRoundTrip(d, p, t, attrs[0]);
      var kv, rest := (t[attrs[0].0], attrs[0].1), ResolveAttrs(t, attrs[1..]);
      EncodedAttrsAt(d, q, t, attrs[1..], rest, e);
      AtBound(d, p, EncodeAttrs(attrs));
      AttrsAtCons(d, p, t, ps, kv, rest, q, e);
    }
  }

  /** The attributes in written order, each read back: `ps` are the
      written pairs with their keys looked up, and `e` is where their
      encoding ends. */
  lemma AttrsRoundTrip(d: seq<byte>, p: nat, t: StringTable, attrs: seq<(i16, Value)>,
                       ps: seq<(string, Value)>, e: nat)
    requires forall i :: 0 <= i < |attrs| ==> 0 <= attrs[i].0 < |t| && Writable(attrs[i].1)
    requires At(d, p, EncodeAttrs(attrs))
    requires ps == ResolveAttrs(t, attrs) && e == p + |EncodeAttrs(attrs)|
    ensures ReadAttributes(d, p, t, |attrs|) == Success(Parsed(ps, e))
  {
    EncodedAttrsAt(d, p, t, attrs, ps, e);
    AtBound(d, p, EncodeAttrs(attrs));
    ReadAttributesAt(d, p, t, ps, e, |attrs|);
  }

  /** The attribute map: `m` is the written pairs inserted in order. */
  lemma AttrMapRoundTrip(d: seq<byte>, p: nat, t: StringTable, attrs: seq<(i16, Value)>,
                         m: map<string, Value>, e: nat)
    requires forall i :: 0 <= i < |attrs| ==> 0 <= attrs[i].0 < |t| && Writable(attrs[i].1)
    requires At(d, p, EncodeAttrs(attrs))
    requires m == Insert(map[], ResolveAttrs(t, attrs)) && e == p + |EncodeAttrs(attrs)|
    ensures ReadAttributeMap(d, p, t, |attrs|) == Success(Parsed(m, e))
  {
    AtBound(d, p, EncodeAttrs(attrs));
    AttrsRoundTrip(d, p, t, attrs, ResolveAttrs(t, attrs), e);
    AttributeMapOfPairs(d, p, t, |attrs|);
  }

  // ---------------------------------------------------------------
  // Elements
  // ---------------------------------------------------------------

  /** An element, given what its first three fields read as. */
  lemma ElementHeadJoin(d: seq<byte>, p: nat, t: StringTable, name: i16, count: byte, m: map<string, Value>, q: nat)
    requires p + 3 <= q <= |d| && 0 <= name < |t|
    requires ReadI16Le(d, p) == Success(Parsed(name, p + 2))
    requires ReadU8(d, p + 2) == Success(Parsed(count, p + 3))
    requires ReadAttributeMap(d, p + 3, t, count) == Success(Parsed(m, q))
    ensures ReadElement(d, p, t) == ReadElementTail(d, q, t, t[name], m)
  {
  }

  /** The rest of an element, given what its child count and children read as. */
  lemma ElementTailJoin(d: seq<byte>, q: nat, t: StringTable, name: string, m: map<string, Value>,
                        nc: i16, kids: seq<Element>, e: nat)
    requires q + 2 <= |d| && 0 <= nc
    requires ReadI16Le(d, q) == Success(Parsed(nc, q + 2))
    requires ReadChildren(d, q + 2, t, nc) == Success(Parsed(kids, e))
    ensures ReadElementTail(d, q, t, name, m) == Success(Parsed(Element(name, m, kids), e))
  {
  }

  /** An element, given what its five fields read as. */
  lemma ElementJoin(d: seq<byte>, p: nat, t: StringTable, name: i16, count: byte,
                    m: map<string, Value>, q: nat, nc: i16, kids: seq<Element>, e: nat)
    requires p + 3 <= q && q + 2 <= |d| && 0 <= name < |t| && 0 <= nc
    requires ReadI16Le(d, p) == Success(Parsed(name, p + 2))
    requires ReadU8(d, p + 2) == Success(Parsed(count, p + 3))
    requires ReadAttributeMap(d, p + 3, t, count) == Success(Parsed(m, q))
    requires ReadI16Le(d, q) == Success(Parsed(nc, q + 2))
    requires ReadChildren(d, q + 2, t, nc) == Success(Parsed(kids, e))
    ensures ReadElement(d, p, t) == Success(Parsed(Element(t[name], m, kids), e))
  {
    ElementHeadJoin(d, p, t, name, count, m, q);
    ElementTailJoin(d, q, t, t[name], m, nc, kids, e);
  }

  /** An element read, then `n - 1` more: `n` children. */
  lemma ChildrenJoin(d: seq<byte>, p: nat, t: StringTable, n: nat, ks: seq<Element>, c: Element, q: nat,
                     rest: seq<Element>, e: nat)
    requires ks == [c] + rest
    requires n > 0 && p <= |d| && ReadElement(d, p, t) == Success(Parsed(c, q))
    requires q <= |d| && ReadChildren(d, q, t, n - 1) == Success(Parsed(rest, e))
    ensures ReadChildren(d, p, t, n) == Success(Parsed(ks, e))
  {
    assert ReadChildren(d, p, t, n) == ReadChildrenFrom(d, p, t, n);
  }

  /** The fields in front of the children: name, count, attributes. */
  lemma NodeHead(d: seq<byte>, p: nat, t: StringTable, n: Node, rest: seq<byte>)
    requires Encodable(n) && InTable(t, n)
    requires At(d, p, LeBytes16(n.name) + ([|n.attrs|] + (EncodeAttrs(n.attrs) + rest)))
    ensures ReadI16Le(d, p) == Success(Parsed(n.name, p + 2))
    ensures ReadU8(d, p + 2) == Success(Parsed(|n.attrs|, p + 3))
    ensures ReadAttributeMap(d, p + 3, t, |n.attrs|)
            == Success(Parsed(Insert(map[], ResolveAttrs(t, n.attrs)), p + 3 + |EncodeAttrs(n.attrs)|))
    ensures At(d, p + 3 + |EncodeAttrs(n.attrs)|, rest)
  {
    var attrs := EncodeAttrs(n.attrs);
    AtSplit(d, p, LeBytes16(n.name), [|n.attrs|] + (attrs + rest));
    I16At(d, p, n.name);
    AtSplit(d, p + 2, [|n.attrs|], attrs + rest);
    U8At(d, p + 2, |n.attrs|);
    AtSplit(d, p + 3, attrs, rest);
    AttrMapRoundTrip(d, p + 3, t, n.attrs, Insert(map[], ResolveAttrs(t, n.attrs)), p + 3 + |EncodeAttrs(n.attrs)|);
  }

  lemma NodeLength(n: Node)
    requires Encodable(n)
    ensures |EncodeNode(n)| == 3 + |EncodeAttrs(n.attrs)| + 2 + |EncodeNodes(n.children)|
  {
  }

  /** The child count and the children, laid out after the attributes. */
  lemma NodeTail(d: seq<byte>, q: nat, n: Node)
    requires Encodable(n) && At(d, q, LeBytes16(|n.children|) + EncodeNodes(n.children))
    ensures ReadI16Le(d, q) == Success(Parsed(|n.children| as i16, q + 2))
    ensures At(d, q + 2, EncodeNodes(n.children))
  {
    AtSplit(d, q, LeBytes16(|n.children|), EncodeNodes(n.children));
    I16At(d, q, |n.children|);
  }

  /** A whole tree read back: the element the reader builds is the tree
      with its names looked up, and the read ends at `e`, just after its
      encoding. */
  lemma NodeRoundTrip(d: seq<byte>, p: nat, t: StringTable, n: Node, e: nat)
    requires Encodable(n) && InTable(t, n) && At(d, p, EncodeNode(n))
    requires e == p + |EncodeNode(n)|
    ensures ReadElement(d, p, t) == Success(Parsed(Resolve(t, n), e))
    decreases n
  {
    NodeHead(d, p, t, n, LeBytes16(|n.children|) + EncodeNodes(n.children));
    var q := p + 3 + |EncodeAttrs(n.attrs)|;
    NodeTail(d, q, n);
    NodeLength(n);
    var kids := ResolveAll(t, n.children);
    NodesRoundTrip(d, q + 2, t, n.children, kids, e);
    ElementJoin(d, p, t, n.name, |n.attrs|, Insert(map[], ResolveAttrs(t, n.attrs)), q,
                |n.children|, kids, e);
  }

  /** The first of the trees laid out at `p`, and where the others start. */
  lemma NodesHead(d: seq<byte>, p: nat, cs: seq<Node>)
    requires cs != [] && forall i :: 0 <= i < |cs| ==> Encodable(cs[i])
    requires At(d, p, EncodeNodes(cs))
    ensures At(d, p, EncodeNode(cs[0]))
    ensures At(d, p + |EncodeNode(cs[0])|, EncodeNodes(cs[1..]))
    ensures p + |EncodeNodes(cs)| == p + |EncodeNode(cs[0])| + |EncodeNodes(cs[1..])|
    ensures p + |EncodeNode(cs[0])| <= |d|
  {
    assert EncodeNodes(cs) == EncodeNode(cs[0]) + EncodeNodes(cs[1..]);
    AtSplit(d, p, EncodeNode(cs[0]), EncodeNodes(cs[1..]));
    AtBound(d, p + |EncodeNode(cs[0])|, EncodeNodes(cs[1..]));
  }

  /** Sibling trees one after the other, read back in order, ending at `e`. */
  lemma NodesRoundTrip(d: seq<byte>, p: nat, t: StringTable, cs: seq<Node>, ks: seq<Element>, e: nat)
    requires forall i :: 0 <= i < |cs| ==> Encodable(cs[i]) && InTable(t, cs[i])
    requires At(d, p, EncodeNodes(cs))
    requires ks == ResolveAll(t, cs) && e == p + |EncodeNodes(cs)|
    ensures ReadChildren(d, p, t, |cs|) == Success(Parsed(ks, e))
    decreases cs
  {
    AtBound(d, p, EncodeNodes(cs));
    if cs == [] {
      assert ks == [] && e == p;
    } else {
      NodesHead(d, p, cs);
      var q := p + |EncodeNode(cs[0])|;
      NodeRoundTrip(d, p, t, cs[0], q);
      var c, rest := Resolve(t, cs[0]), ResolveAll(t, cs[1..]);
      NodesRoundTrip(d, q, t, cs[1..], rest, e);
      ChildrenJoin(d, p, t, |cs|, ks, c, q, rest, e);
    }
  }

  // ---------------------------------------------------------------
  // The whole document
  // ---------------------------------------------------------------

  /** The decoder of whole documents, given where the header ends. */
  lemma DecodeJoin(d: seq<byte>, t: StringTable, q: nat, root: Element, e: nat)
    requires ReadHeader(d) == Success(Parsed(t, q)) && q <= |d|
    requires ReadElement(d, q, t) == Success(Parsed(root, e))
    ensures Decode(d) == Success(root)
  {
  }

  /** A tree written where the header ends is the decoded document. */
  lemma DecodeAfterHeader(d: seq<byte>, t: StringTable, h: nat, root: Node)
    requires Encodable(root) && InTable(t, root)
    requires ReadHeader(d) == Success(Parsed(t, h)) && At(d, h, EncodeNode(root))
    ensures Decode(d) == Success(Resolve(t, root))
  {
    AtBound(d, h, EncodeNode(root));
    var e := h + |EncodeNode(root)|;
    NodeRoundTrip(d, h, t, root, e);
    DecodeJoin(d, t, h, Resolve(t, root), e);
  }

  /** A document written as a header and a root tree decodes to that tree,
      whatever bytes follow it. */
  lemma DecodeRoundTrip(d: seq<byte>, format: string, package: string, t: StringTable, root: Node)
    requires Short(format) && Short(package)
    requires forall i :: 0 <= i < |t| ==> Short(t[i])
    requires Encodable(root) && InTable(t, root)
    requires At(d, 0, EncodeHeader(format, package, t) + EncodeNode(root))
    ensures Decode(d) == Success(Resolve(t, root))
  {
    var header := EncodeHeader(format, package, t);
    var h := |header|;
    AtSplit(d, 0, header, EncodeNode(root));
    assert At(d, h, EncodeNode(root));
    HeaderRoundTrip(d, format, package, t);
    DecodeAfterHeader(d, t, h, root);
  }
}
