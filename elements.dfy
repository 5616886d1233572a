/** The tree decoder of element.rs: the header with its string table, the
    tagged attribute values, and the recursive pre-order element read.

    As in the cursor module, every read is a function of the buffer and a
    position; `Read` and `FromBytes` perform it by advancing a `Cursor` in
    place, with the loops the original runs, and are proved to agree. */
module Elements {
  import opened Wrappers
  import opened Wire
  import opened Buf
  import Utf8

  /** An attribute value. `Float` keeps the 32 bits of the f32. */
  datatype Value = Bool(b: bool) | Int(i: i32) | Float(bits: u32) | String(s: string) {

    function AsBool(): (r: Option<bool>)
      ensures r.Some? <==> Bool?
      ensures r.Some? ==> this == Bool(r.value)
    {
      if Bool? then Some(b) else None
    }

    function AsInt(): (r: Option<i32>)
      ensures r.Some? <==> Int?
      ensures r.Some? ==> this == Int(r.value)
    {
      if Int? then Some(i) else None
    }

    function AsFloat(): (r: Option<u32>)
      ensures r.Some? <==> Float?
      ensures r.Some? ==> this == Float(r.value)
    {
      if Float? then Some(bits) else None
    }

    function AsStr(): (r: Option<string>)
      ensures r.Some? <==> String?
      ensures r.Some? ==> this == String(r.value)
    {
      if String? then Some(s) else None
    }
  }

  /** A named node with its attributes and its children in document order. */
  datatype Element = Element(name: string, attributes: map<string, Value>, children: seq<Element>)

  /** The table has at most i16::MAX entries, since its count is an i16. */
  type StringTable = t: seq<string> | |t| < 0x8000

  /** `string_lookup[i as usize]`: a negative i16 becomes a huge usize,
      so it is out of range like any index past the end. */
  function Lookup(t: StringTable, i: i16): (r: Result<string, DecodeError>)
    ensures r.Success? <==> 0 <= i < |t|
    ensures r.Success? ==> r.value == t[i]
    ensures r.Failure? ==> r.error == IndexOutOfRange
  {
    var index := UsizeOf(i);
    if index < |t| then Success(t[index]) else Failure(IndexOutOfRange)
  }

  /** `String::repeat` of a one-char string. */
  function Repeat(c: char, n: nat): (s: string)
    ensures |s| == n && forall k :: 0 <= k < n ==> s[k] == c
  {
    seq(n, _ => c)
  }

  /** `count` (repeat, byte) pairs of a tag-7 value, expanded in order. */
  function ReadRuns(d: seq<byte>, p: nat, count: nat): (r: Read<string>)
    requires p <= |d|
    ensures r.Success? ==> r.value.next == p + 2 * count <= |d|
    decreases count, 1
  {
    if count == 0 then Success(Parsed([], p)) else ReadRunsFrom(d, p, count)
  }

  /** A non-empty list of pairs: the first run, then the others. */
  function ReadRunsFrom(d: seq<byte>, p: nat, count: nat): (r: Read<string>)
    requires p <= |d| && count > 0
    ensures r.Success? ==> r.value.next == p + 2 * count <= |d|
    decreases count, 0
  {
    var repeat :- ReadU8(d, p);
    var ch :- ReadU8(d, repeat.next);
    var rest :- ReadRuns(d, ch.next, count - 1);
    Success(Parsed(Repeat(Utf8.ByteChar(ch.val), repeat.val) + rest.val, rest.next))
  }

  /** The number of pairs of a tag-7 value with byte count `b`: Rust's
      truncating `b / 2`, and a negative range yields nothing. */
  function PairCount(b: i16): (n: nat)
    ensures b >= 0 ==> n == b / 2
    ensures b < 0 ==> n == 0
  {
    var half := TruncDiv(b, 2);
    if half < 0 then 0 else half
  }

  /** The value of type tag `tag`. */
  function ReadValue(d: seq<byte>, p: nat, t: StringTable, tag: byte): (r: Read<Value>)
    requires p <= |d|
    ensures r.Success? ==> p < r.value.next <= |d|
    ensures tag > 7 ==> r == Failure(UnknownValueTag(tag))
  {
    if tag == 0 then
      var b :- ReadU8(d, p);
      Success(Parsed(Bool(b.val != 0), b.next))
    else if tag == 1 then
      var b :- ReadU8(d, p);
      Success(Parsed(Int(b.val), b.next))
    else if tag == 2 then
      var h :- ReadI16Le(d, p);
      Success(Parsed(Int(h.val), h.next))
    else if tag == 3 then
      var w :- ReadI32Le(d, p);
      Success(Parsed(Int(w.val), w.next))
    else if tag == 4 then
      var f :- ReadF32BitsLe(d, p);
      Success(Parsed(Float(f.val), f.next))
    else if tag == 5 then
      var index :- ReadI16Le(d, p);
      var s :- Lookup(t, index.val);
      Success(Parsed(String(s), index.next))
    else if tag == 6 then
      var s :- ReadString(d, p);
      Success(Parsed(String(s.val), s.next))
    else if tag == 7 then
      var count :- ReadI16Le(d, p);
      var text :- ReadRuns(d, count.next, PairCount(count.val));
      Success(Parsed(String(text.val), text.next))
    else
      Failure(UnknownValueTag(tag))
  }

  /** One attribute: key index, type tag, value. */
  function ReadAttribute(d: seq<byte>, p: nat, t: StringTable): (r: Read<(string, Value)>)
    requires p <= |d|
    ensures r.Success? ==> p + 4 <= r.value.next <= |d|
  {
    var index :- ReadI16Le(d, p);
    var key :- Lookup(t, index.val);
    var tag :- ReadU8(d, index.next);
    var v :- ReadValue(d, tag.next, t, tag.val);
    Success(Parsed((key, v.val), v.next))
  }

  /** `n` attributes in the order they are read. */
  function ReadAttributes(d: seq<byte>, p: nat, t: StringTable, n: nat): (r: Read<seq<(string, Value)>>)
    requires p <= |d|
    ensures r.Success? ==> |r.value.val| == n && p + 4 * n <= r.value.next <= |d|
    decreases n
  {
    if n == 0 then Success(Parsed([], p))
    else
      var first :- ReadAttribute(d, p, t);
      var rest :- ReadAttributes(d, first.next, t, n - 1);
      Success(Parsed([first.val] + rest.val, rest.next))
  }

  /** `n` attributes inserted one by one into `m`, as `collect` into a
      `HashMap` does. */
  function ReadAttributesInto(d: seq<byte>, p: nat, t: StringTable, n: nat, m: map<string, Value>): (r: Read<map<string, Value>>)
    requires p <= |d|
    ensures r.Success? ==> p + 4 * n <= r.value.next <= |d|
    decreases n
  {
    if n == 0 then Success(Parsed(m, p))
    else
      var first :- ReadAttribute(d, p, t);
      ReadAttributesInto(d, first.next, t, n - 1, m[first.val.0 := first.val.1])
  }

  /** The attribute map of an element with `n` attributes. */
  function ReadAttributeMap(d: seq<byte>, p: nat, t: StringTable, n: nat): (r: Read<map<string, Value>>)
    requires p <= |d|
    ensures r.Success? ==> p + 4 * n <= r.value.next <= |d|
  {
    ReadAttributesInto(d, p, t, n, map[])
  }

  /** One element: name index, u8 attribute count and attributes, i16
      child count and children. A negative child count is an empty range
      in `(0..num_children)`, so it gives no children. */
  function ReadElement(d: seq<byte>, p: nat, t: StringTable): (r: Read<Element>)
    requires p <= |d|
    ensures r.Success? ==> p + 5 <= r.value.next <= |d|
    decreases |d| - p, 0, 0
  {
    var index :- ReadI16Le(d, p);
    var name :- Lookup(t, index.val);
    var count :- ReadU8(d, index.next);
    var attributes :- ReadAttributeMap(d, count.next, t, count.val);
    ReadElementTail(d, attributes.next, t, name, attributes.val)
  }

  /** The rest of an element once its attributes are read: the i16 child
      count, then the children. */
  function ReadElementTail(d: seq<byte>, q: nat, t: StringTable, name: string, attributes: map<string, Value>): (r: Read<Element>)
    requires q <= |d|
    ensures r.Success? ==> q + 2 <= r.value.next <= |d|
    decreases |d| - q, 0, 1
  {
    var children :- ReadI16Le(d, q);
    var kids :- ReadChildren(d, children.next, t, if children.val < 0 then 0 else children.val);
    Success(Parsed(Element(name, attributes, kids.val), kids.next))
  }

  /** `n` elements one after the other, in document order. */
  function ReadChildren(d: seq<byte>, p: nat, t: StringTable, n: nat): (r: Read<seq<Element>>)
    requires p <= |d|
    ensures r.Success? ==> |r.value.val| == n && p + 5 * n <= r.value.next <= |d|
    decreases |d| - p, 1, n, 1
  {
    if n == 0 then Success(Parsed([], p)) else ReadChildrenFrom(d, p, t, n)
  }

  /** A non-empty run of children: the first, then the others. */
  function ReadChildrenFrom(d: seq<byte>, p: nat, t: StringTable, n: nat): (r: Read<seq<Element>>)
    requires p <= |d| && n > 0
    ensures r.Success? ==> |r.value.val| == n && p + 5 * n <= r.value.next <= |d|
    decreases |d| - p, 1, n, 0
  {
    var first :- ReadElement(d, p, t);
    var rest :- ReadChildren(d, first.next, t, n - 1);
    Success(Parsed([first.val] + rest.val, rest.next))
  }

  /** `n` length-prefixed strings. */
  function ReadStrings(d: seq<byte>, p: nat, n: nat): (r: Read<seq<string>>)
    requires p <= |d|
    ensures r.Success? ==> |r.value.val| == n && p + n <= r.value.next <= |d|
    decreases n
  {
    if n == 0 then Success(Parsed([], p))
    else
      var first :- ReadString(d, p);
      var rest :- ReadStrings(d, first.next, n - 1);
      Success(Parsed([first.val] + rest.val, rest.next))
  }

  /** The header: two discarded strings, then the string table. */
  function ReadHeader(d: seq<byte>): (r: Read<StringTable>)
    ensures r.Success? ==> 4 + |r.value.val| <= r.value.next <= |d|
  {
    var format :- ReadString(d, 0);
    var package :- ReadString(d, format.next);
    ReadTable(d, package.next)
  }

  /** The string table proper: an i16 count, then that many strings.
      A negative count becomes a huge `usize`, and collecting that many
      strings fails at `Vec::with_capacity`. */
  function ReadTable(d: seq<byte>, p: nat): (r: Read<StringTable>)
    requires p <= |d|
    ensures r.Success? ==> p + 2 + |r.value.val| <= r.value.next <= |d|
  {
    var count :- ReadI16Le(d, p);
    if count.val < 0 then Failure(CapacityOverflow)
    else
      var strings :- ReadStrings(d, count.next, count.val);
      Success(Parsed(strings.val, strings.next))
  }

  /** `Element::from_file` after the file has been read: the header, then
      the root element. Bytes after the root are not looked at. */
  function Decode(d: seq<byte>): (r: Result<Element, DecodeError>)
    ensures r.Success? ==> 9 <= |d|
  {
    var header :- ReadHeader(d);
    var root :- ReadElement(d, header.next, header.val);
    Success(root.val)
  }

  // ---------------------------------------------------------------
  // The decoder over a cursor
  // ---------------------------------------------------------------

  /** A sequence read so far, in front of what the rest of a read gives. */
  function Prefixed<T>(done: seq<T>, rest: Read<seq<T>>): Read<seq<T>> {
    match rest
    case Success(item) => Success(Parsed(done + item.val, item.next))
    case Failure(e) => Failure(e)
  }

  lemma PrefixedNone<T>(r: Read<seq<T>>)
    ensures Prefixed([], r) == r
  {
    match r
    case Success(item) => assert [] + item.val == item.val;
    case Failure(_) =>
  }

  lemma PrefixedDone<T>(done: seq<T>, p: nat)
    ensures Prefixed(done, Success(Parsed([], p))) == Success(Parsed(done, p))
  {
    assert done + [] == done;
  }

  lemma PrefixedAssoc<T>(a: seq<T>, b: seq<T>, r: Read<seq<T>>)
    ensures Prefixed(a, Prefixed(b, r)) == Prefixed(a + b, r)
  {
    match r
    case Success(item) => assert a + (b + item.val) == (a + b) + item.val;
    case Failure(_) =>
  }

  /** One pair of a run-length text, in front of the rest. */
  lemma ReadRunsStep(d: seq<byte>, p: nat, count: nat)
    requires count > 0 && p <= |d|
    ensures p + 2 <= |d| ==>
              ReadRuns(d, p, count) == Prefixed(Repeat(Utf8.ByteChar(d[p + 1]), d[p]), ReadRuns(d, p + 2, count - 1))
    ensures p + 2 > |d| ==> ReadRuns(d, p, count) == Failure(BufferUnderrun)
  {
  }

  /** Each of ReadAttributes, ReadChildren and ReadStrings is its first
      item in front of the rest, and fails when the first item does. */
  lemma ReadAttributesCons(d: seq<byte>, p: nat, t: StringTable, n: nat)
    requires p <= |d| && n > 0
    ensures ReadAttribute(d, p, t).Failure? ==> ReadAttributes(d, p, t, n) == Failure(ReadAttribute(d, p, t).error)
    ensures ReadAttribute(d, p, t).Success? ==>
              ReadAttributes(d, p, t, n)
              == Prefixed([ReadAttribute(d, p, t).value.val], ReadAttributes(d, ReadAttribute(d, p, t).value.next, t, n - 1))
  {
  }

  lemma ReadChildrenCons(d: seq<byte>, p: nat, t: StringTable, n: nat)
    requires p <= |d| && n > 0
    ensures ReadElement(d, p, t).Failure? ==> ReadChildren(d, p, t, n) == Failure(ReadElement(d, p, t).error)
    ensures ReadElement(d, p, t).Success? ==>
              ReadChildren(d, p, t, n)
              == Prefixed([ReadElement(d, p, t).value.val], ReadChildren(d, ReadElement(d, p, t).value.next, t, n - 1))
  {
  }

  lemma ReadStringsCons(d: seq<byte>, p: nat, n: nat)
    requires p <= |d| && n > 0
    ensures ReadString(d, p).Failure? ==> ReadStrings(d, p, n) == Failure(ReadString(d, p).error)
    ensures ReadString(d, p).Success? ==>
              ReadStrings(d, p, n)
              == Prefixed([ReadString(d, p).value.val], ReadStrings(d, ReadString(d, p).value.next, n - 1))
  {
  }

  /** One turn of the child loop: the element just read joins those before
      it, or its error ends the whole read. */
  lemma ChildrenStep(d: seq<byte>, p: nat, t: StringTable, n: nat, done: seq<Element>,
                     r: Result<Element, DecodeError>, q: nat)
    requires p <= |d| && n > 0 && q <= |d| && Agrees(ReadElement(d, p, t), r, q)
    ensures r.Failure? ==> Prefixed(done, ReadChildren(d, p, t, n)) == Failure(r.error)
    ensures r.Success? ==>
              Prefixed(done, ReadChildren(d, p, t, n)) == Prefixed(done + [r.value], ReadChildren(d, q, t, n - 1))
  {
    ReadChildrenCons(d, p, t, n);
    if r.Success? {
      PrefixedAssoc(done, [r.value], ReadChildren(d, q, t, n - 1));
    }
  }

  /** One turn of the string-table loop. */
  lemma StringsStep(d: seq<byte>, p: nat, n: nat, done: seq<string>, r: Result<string, DecodeError>, q: nat)
    requires p <= |d| && n > 0 && q <= |d| && Agrees(ReadString(d, p), r, q)
    ensures r.Failure? ==> Prefixed(done, ReadStrings(d, p, n)) == Failure(r.error)
    ensures r.Success? ==>
              Prefixed(done, ReadStrings(d, p, n)) == Prefixed(done + [r.value], ReadStrings(d, q, n - 1))
  {
    ReadStringsCons(d, p, n);
    if r.Success? {
      PrefixedAssoc(done, [r.value], ReadStrings(d, q, n - 1));
    }
  }

  lemma AttributesIntoCons(d: seq<byte>, p: nat, t: StringTable, n: nat, m: map<string, Value>,
                            r: Result<(string, Value), DecodeError>, q: nat)
    requires p <= |d| && n > 0 && q <= |d| && Agrees(ReadAttribute(d, p, t), r, q)
    ensures r.Failure? ==> ReadAttributesInto(d, p, t, n, m) == Failure(r.error)
    ensures r.Success? ==> ReadAttributesInto(d, p, t, n, m) == ReadAttributesInto(d, q, t, n - 1, m[r.value.0 := r.value.1])
  {
  }

  /** The `match value_type` of element.rs: one tagged value. */
  method GetValue(cur: Cursor, t: StringTable, tag: byte) returns (r: Result<Value, DecodeError>)
    requires cur.Valid()
    modifies cur
    ensures cur.Valid() && Agrees(ReadValue(cur.data, old(cur.pos), t, tag), r, cur.pos)
  {
    if tag == 0 {
      var b := cur.GetU8();
      match b {
        case Failure(e) => return Failure(e);
        case Success(v) => return Success(Bool(v != 0));
      }
    } else if tag == 1 {
      var b := cur.GetU8();
      match b {
        case Failure(e) => return Failure(e);
        case Success(v) => return Success(Int(v));
      }
    } else if tag == 2 {
      var h := cur.GetI16Le();
      match h {
        case Failure(e) => return Failure(e);
        case Success(v) => return Success(Int(v));
      }
    } else if tag == 3 {
      var w := cur.GetI32Le();
      match w {
        case Failure(e) => return Failure(e);
        case Success(v) => return Success(Int(v));
      }
    } else if tag == 4 {
      var f := cur.GetF32Le();
      match f {
        case Failure(e) => return Failure(e);
        case Success(v) => return Success(Float(v));
      }
    } else if tag == 5 {
      var index := cur.GetI16Le();
      match index {
        case Failure(e) => return Failure(e);
        case Success(i) =>
          match Lookup(t, i) {
            case Failure(e) => return Failure(e);
            case Success(s) => return Success(String(s));
          }
      }
    } else if tag == 6 {
      var s := cur.GetString();
      match s {
        case Failure(e) => return Failure(e);
        case Success(v) => return Success(String(v));
      }
    } else if tag == 7 {
      var count := cur.GetI16Le();
      match count {
        case Failure(e) => return Failure(e);
        case Success(c) =>
          var text := GetRuns(cur, PairCount(c));
          match text {
            case Failure(e) => return Failure(e);
            case Success(v) => return Success(String(v));
          }
      }
    } else {
      return Failure(UnknownValueTag(tag));
    }
  }

  /** The loop of value tag 7: `n` (repeat, byte) pairs, each pushing
      `(byte as char).to_string().repeat(repeat)`. */
  method GetRuns(cur: Cursor, n: nat) returns (r: Result<string, DecodeError>)
    requires cur.Valid()
    modifies cur
    ensures cur.Valid() && Agrees(ReadRuns(cur.data, old(cur.pos), n), r, cur.pos)
  {
    ghost var start := cur.pos;
    var buf: string := [];
    PrefixedNone(ReadRuns(cur.data, start, n));
    for i := 0 to n
      invariant cur.Valid()
      invariant Prefixed(buf, ReadRuns(cur.data, cur.pos, n - i)) == ReadRuns(cur.data, start, n)
    {
      ReadRunsStep(cur.data, cur.pos, n - i);
      ghost var here := cur.pos;
      var repeat := cur.GetU8();
      match repeat {
        case Failure(e) => return Failure(e);
        case Success(k) =>
          var ch := cur.GetU8();
          match ch {
            case Failure(e) => return Failure(e);
            case Success(c) =>
              PrefixedAssoc(buf, Repeat(Utf8.ByteChar(c), k), ReadRuns(cur.data, cur.pos, n - i - 1));
              buf := buf + Repeat(Utf8.ByteChar(c), k);
          }
      }
    }
    PrefixedDone(buf, cur.pos);
    return Success(buf);
  }

  /** One key/value pair of `Element::read`. */
  method GetAttribute(cur: Cursor, t: StringTable) returns (r: Result<(string, Value), DecodeError>)
    requires cur.Valid()
    modifies cur
    ensures cur.Valid() && Agrees(ReadAttribute(cur.data, old(cur.pos), t), r, cur.pos)
  {
    var keyIndex := cur.GetI16Le();
    match keyIndex {
      case Failure(e) => return Failure(e);
      case Success(i) =>
        match Lookup(t, i) {
          case Failure(e) => return Failure(e);
          case Success(key) =>
            var valueType := cur.GetU8();
            match valueType {
              case Failure(e) => return Failure(e);
              case Success(tag) =>
                var value := GetValue(cur, t, tag);
                match value {
                  case Failure(e) => return Failure(e);
                  case Success(v) => return Success((key, v));
                }
            }
        }
    }
  }

  /** The attribute loop of `Element::read`: `n` key/value pairs
      inserted into a map one by one. */
  method GetAttributes(cur: Cursor, t: StringTable, n: nat) returns (r: Result<map<string, Value>, DecodeError>)
    requires cur.Valid()
    modifies cur
    ensures cur.Valid() && Agrees(ReadAttributeMap(cur.data, old(cur.pos), t, n), r, cur.pos)
  {
    ghost var goal := ReadAttributesInto(cur.data, cur.pos, t, n, map[]);
    var attributes: map<string, Value> := map[];
    for i := 0 to n
      invariant cur.Valid()
      invariant ReadAttributesInto(cur.data, cur.pos, t, n - i, attributes) == goal
    {
      ghost var here, left := cur.pos, n - i;
      var kv := GetAttribute(cur, t);
      AttributesIntoCons(cur.data, here, t, left, attributes, kv, cur.pos);
      match kv {
        case Failure(e) => return Failure(e);
        case Success(a) =>
          attributes := attributes[a.0 := a.1];
          assert ReadAttributesInto(cur.data, cur.pos, t, n - (i + 1), attributes) == goal;
      }
    }
    return Success(attributes);
  }

  /** The child loop of `Element::read`: `n` elements in order. */
  method GetChildren(cur: Cursor, t: StringTable, n: nat) returns (r: Result<seq<Element>, DecodeError>)
    requires cur.Valid()
    modifies cur
    ensures cur.Valid() && Agrees(ReadChildren(cur.data, old(cur.pos), t, n), r, cur.pos)
    decreases |cur.data| - cur.pos, 1
  {
    ghost var start := cur.pos;
    var children: seq<Element> := [];
    PrefixedNone(ReadChildren(cur.data, start, t, n));
    for i := 0 to n
      invariant cur.Valid() && cur.pos >= start
      invariant Prefixed(children, ReadChildren(cur.data, cur.pos, t, n - i)) == ReadChildren(cur.data, start, t, n)
    {
      ghost var here := cur.pos;
      var child := Read(cur, t);
      ChildrenStep(cur.data, here, t, n - i, children, child, cur.pos);
      match child {
        case Failure(e) => return Failure(e);
        case Success(c) => children := children + [c];
      }
    }
    PrefixedDone(children, cur.pos);
    return Success(children);
  }

  /** `Element::read`. */
  method Read(cur: Cursor, t: StringTable) returns (r: Result<Element, DecodeError>)
    requires cur.Valid()
    modifies cur
    ensures cur.Valid() && Agrees(ReadElement(cur.data, old(cur.pos), t), r, cur.pos)
    decreases |cur.data| - cur.pos, 0
  {
    var index := cur.GetI16Le();
    match index {
      case Failure(e) => return Failure(e);
      case Success(i) =>
        match Lookup(t, i) {
          case Failure(e) => return Failure(e);
          case Success(name) =>
            var numAttributes := cur.GetU8();
            match numAttributes {
              case Failure(e) => return Failure(e);
              case Success(na) =>
                var attributes := GetAttributes(cur, t, na);
                match attributes {
                  case Failure(e) => return Failure(e);
                  case Success(attrs) =>
                    var numChildren := cur.GetI16Le();
                    match numChildren {
                      case Failure(e) => return Failure(e);
                      case Success(nc) =>
                        var children := GetChildren(cur, t, if nc < 0 then 0 else nc);
                        match children {
                          case Failure(e) => return Failure(e);
                          case Success(kids) => return Success(Element(name, attrs, kids));
                        }
                    }
                }
            }
        }
    }
  }

  /** `(0..n).map(|_| get_string(bytes))`, collected. */
  method GetStrings(cur: Cursor, n: nat) returns (r: Result<seq<string>, DecodeError>)
    requires cur.Valid()
    modifies cur
    ensures cur.Valid() && Agrees(ReadStrings(cur.data, old(cur.pos), n), r, cur.pos)
  {
    ghost var start := cur.pos;
    var lookup: seq<string> := [];
    PrefixedNone(ReadStrings(cur.data, start, n));
    for i := 0 to n
      invariant cur.Valid()
      invariant Prefixed(lookup, ReadStrings(cur.data, cur.pos, n - i)) == ReadStrings(cur.data, start, n)
    {
      ghost var here := cur.pos;
      var s := cur.GetString();
      StringsStep(cur.data, here, n - i, lookup, s, cur.pos);
      match s {
        case Failure(e) => return Failure(e);
        case Success(v) => lookup := lookup + [v];
      }
    }
    PrefixedDone(lookup, cur.pos);
    return Success(lookup);
  }

  /** The string table of `Element::from_file`. */
  method GetTable(cur: Cursor) returns (r: Result<StringTable, DecodeError>)
    requires cur.Valid()
    modifies cur
    ensures cur.Valid() && Agrees(ReadTable(cur.data, old(cur.pos)), r, cur.pos)
  {
    var numStrings := cur.GetI16Le();
    match numStrings {
      case Failure(e) => return Failure(e);
      case Success(n) =>
        if n < 0 {
          return Failure(CapacityOverflow);
        }
        var strings := GetStrings(cur, n);
        match strings {
          case Failure(e) => return Failure(e);
          case Success(table) => return Success(table);
        }
    }
  }

  /** `Element::from_file` without the file read. */
  method FromBytes(data: seq<byte>) returns (r: Result<Element, DecodeError>)
    ensures r == Decode(data)
  {
    var cur := new Cursor(data);
    var format := cur.GetString();
    match format {
      case Failure(e) => return Failure(e);
      case Success(_) =>
        var package := cur.GetString();
        match package {
          case Failure(e) => return Failure(e);
          case Success(_) =>
            var table := GetTable(cur);
            match table {
              case Failure(e) => return Failure(e);
              case Success(lookup) => r := Read(cur, lookup);
            }
        }
    }
  }
}
