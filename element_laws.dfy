/** Properties of the tree decoder of element.rs: the attribute map that
    insertion in read order builds, the run-length text of tag 7, values
    string tables and headers read back from their encodings. */
module ElementLaws {
  import opened Wrappers
  import opened Wire
  import opened Buf
  import opened Elements
  import Utf8

  // ---------------------------------------------------------------
  // Attribute maps
  // ---------------------------------------------------------------

  /** The pairs `ps` inserted into `m` one by one, in order. */
  function Insert(m: map<string, Value>, ps: seq<(string, Value)>): map<string, Value>
    decreases |ps|
  {
    if ps == [] then m else Insert(m[ps[0].0 := ps[0].1], ps[1..])
  }

  /** The pairs a read gives, inserted into `m`. */
  function InsertRead(m: map<string, Value>, r: Read<seq<(string, Value)>>): Read<map<string, Value>> {
    match r
    case Success(item) => Success(Parsed(Insert(m, item.val), item.next))
    case Failure(e) => Failure(e)
  }

  lemma InsertReadCons(m: map<string, Value>, kv: (string, Value), r: Read<seq<(string, Value)>>)
    ensures InsertRead(m, Prefixed([kv], r)) == InsertRead(m[kv.0 := kv.1], r)
  {
    match r
    case Success(item) => assert ([kv] + item.val)[1..] == item.val;
    case Failure(_) =>
  }

  lemma {:induction false} AttributesIntoPairs(d: seq<byte>, p: nat, t: StringTable, n: nat, m: map<string, Value>)
    requires p <= |d|
    ensures ReadAttributesInto(d, p, t, n, m) == InsertRead(m, ReadAttributes(d, p, t, n))
    decreases n
  {
    if n > 0 {
      var r := ReadAttribute(d, p, t);
      ReadAttributesCons(d, p, t, n);
      if r.Success? {
        var kv := r.value.val;
        AttributesIntoCons(d, p, t, n, m, Success(kv), r.value.next);
        AttributesIntoPairs(d, r.value.next, t, n - 1, m[kv.0 := kv.1]);
        InsertReadCons(m, kv, ReadAttributes(d, r.value.next, t, n - 1));
      } else {
        AttributesIntoCons(d, p, t, n, m, Failure(r.error), p);
      }
    }
  }

  /** The attribute map of an element is the map that inserting the pairs
      read, in order, builds: it fails exactly when reading the pairs
      fails, with the same error, and ends where they end. */
  lemma AttributeMapOfPairs(d: seq<byte>, p: nat, t: StringTable, n: nat)
    requires p <= |d|
    ensures ReadAttributeMap(d, p, t, n) == InsertRead(map[], ReadAttributes(d, p, t, n))
  {
    AttributesIntoPairs(d, p, t, n, map[]);
  }

  /** The keys after inserting are those before and those of the pairs. */
  lemma {:induction false} InsertKeys(m: map<string, Value>, ps: seq<(string, Value)>, k: string)
    ensures k in Insert(m, ps) <==> k in m || exists i :: 0 <= i < |ps| && ps[i].0 == k
    decreases |ps|
  {
    if ps != [] {
      InsertKeys(m[ps[0].0 := ps[0].1], ps[1..], k);
      if i :| 0 <= i < |ps| && ps[i].0 == k && i > 0 {
        assert ps[1..][i - 1] == ps[i];
      }
      if i :| 0 <= i < |ps[1..]| && ps[1..][i].0 == k {
        assert ps[i + 1] == ps[1..][i];
      }
    }
  }

  /** A key keeps the value of its last pair: a repeated key's earlier
      values are overwritten. */
  lemma {:induction false} InsertLastWins(m: map<string, Value>, ps: seq<(string, Value)>, i: nat)
    requires i < |ps|
    requires forall j :: i < j < |ps| ==> ps[j].0 != ps[i].0
    ensures ps[i].0 in Insert(m, ps) && Insert(m, ps)[ps[i].0] == ps[i].1
    decreases |ps|
  {
    if i == 0 {
      InsertUntouched(m[ps[0].0 := ps[0].1], ps[1..], ps[0].0);
    } else {
      assert forall j :: i - 1 < j < |ps[1..]| ==> ps[1..][j] == ps[j + 1];
      InsertLastWins(m[ps[0].0 := ps[0].1], ps[1..], i - 1);
    }
  }

  /** A key no pair has keeps its value from `m`. */
  lemma {:induction false} InsertUntouched(m: map<string, Value>, ps: seq<(string, Value)>, k: string)
    requires k in m && forall j :: 0 <= j < |ps| ==> ps[j].0 != k
    ensures k in Insert(m, ps) && Insert(m, ps)[k] == m[k]
    decreases |ps|
  {
    if ps != [] {
      assert forall j :: 0 <= j < |ps[1..]| ==> ps[1..][j] == ps[j + 1];
      InsertUntouched(m[ps[0].0 := ps[0].1], ps[1..], k);
    }
  }

  /** Inserting adds at most one key per pair. */
  lemma {:induction false} InsertSize(m: map<string, Value>, ps: seq<(string, Value)>)
    ensures |Insert(m, ps)| <= |m| + |ps|
    decreases |ps|
  {
    if ps != [] {
      InsertSize(m[ps[0].0 := ps[0].1], ps[1..]);
    }
  }

  /** An element read with the u8 attribute count `n` has at most `n`
      distinct keys; each key holds the value of the last pair read with
      it, and no other key is present. */
  lemma AttributeMapProperties(d: seq<byte>, p: nat, t: StringTable, n: nat)
    requires p <= |d| && ReadAttributeMap(d, p, t, n).Success?
    ensures ReadAttributes(d, p, t, n).Success?
    ensures |ReadAttributeMap(d, p, t, n).value.val| <= n
    ensures var ps := ReadAttributes(d, p, t, n).value.val;
            forall i :: 0 <= i < |ps| && (forall j :: i < j < |ps| ==> ps[j].0 != ps[i].0) ==>
              ps[i].0 in ReadAttributeMap(d, p, t, n).value.val
              && ReadAttributeMap(d, p, t, n).value.val[ps[i].0] == ps[i].1
    ensures var ps := ReadAttributes(d, p, t, n).value.val;
            forall k :: k in ReadAttributeMap(d, p, t, n).value.val ==> exists i :: 0 <= i < |ps| && ps[i].0 == k
  {
    AttributeMapOfPairs(d, p, t, n);
    var ps := ReadAttributes(d, p, t, n).value.val;
    InsertSize(map[], ps);
    forall i | 0 <= i < |ps| && (forall j :: i < j < |ps| ==> ps[j].0 != ps[i].0)
      ensures ps[i].0 in Insert(map[], ps) && Insert(map[], ps)[ps[i].0] == ps[i].1
    {
      InsertLastWins(map[], ps, i);
    }
    forall k | k in Insert(map[], ps)
      ensures exists i :: 0 <= i < |ps| && ps[i].0 == k
    {
      InsertKeys(map[], ps, k);
    }
  }

  // ---------------------------------------------------------------
  // Run-length text (tag 7)
  // ---------------------------------------------------------------

  /** The sum of the repeat bytes of (repeat, byte) pairs laid out in turn. */
  function RepeatSum(bs: seq<byte>): nat
    requires |bs| % 2 == 0
  {
    if bs == [] then 0 else bs[0] + RepeatSum(bs[2..])
  }

  /** The text of (repeat, byte) pairs laid out in turn: each byte, as the
      char of the same code point, repeated, in order. Its length is the
      sum of the repeats. */
  function Expand(bs: seq<byte>): (s: string)
    requires |bs| % 2 == 0
    ensures |s| == RepeatSum(bs)
  {
    if bs == [] then [] else Repeat(Utf8.ByteChar(bs[1]), bs[0]) + Expand(bs[2..])
  }

  /** Reading `count` pairs fails exactly when fewer than `2 * count`
      bytes remain, and otherwise gives the text of those bytes. */
  lemma {:induction false} ReadRunsText(d: seq<byte>, p: nat, count: nat)
    requires p <= |d|
    ensures p + 2 * count <= |d| ==>
              ReadRuns(d, p, count) == Success(Parsed(Expand(d[p..p + 2 * count]), p + 2 * count))
    ensures p + 2 * count > |d| ==> ReadRuns(d, p, count) == Failure(BufferUnderrun)
    decreases count
  {
    if count > 0 {
      ReadRunsStep(d, p, count);
      if p + 2 <= |d| {
        ReadRunsText(d, p + 2, count - 1);
        if p + 2 * count <= |d| {
          var s := d[p..p + 2 * count];
          assert s[2..] == d[p + 2..p + 2 * count];
          assert s[0] == d[p] && s[1] == d[p + 1];
        }
      }
    }
  }

  /** Tag 7: an i16 byte count B, then B/2 pairs (truncated; none when B
      is negative), expanded in order. */
  lemma RunTag(d: seq<byte>, p: nat, t: StringTable, n: nat)
    requires p + 2 <= |d|
    requires n == PairCount(Signed16(Le16(d[p], d[p + 1])))
    ensures ReadValue(d, p, t, 7).Success? <==> p + 2 + 2 * n <= |d|
    ensures p + 2 + 2 * n <= |d| ==>
              ReadValue(d, p, t, 7)
              == Success(Parsed(String(Expand(d[p + 2..p + 2 + 2 * n])), p + 2 + 2 * n))
  {
    assert ReadI16Le(d, p) == Success(Parsed(Signed16(Le16(d[p], d[p + 1])), p + 2));
    ReadRunsText(d, p + 2, n);
  }

  /** The example pairs (3, '1') and (2, '0') give "11100". */
  lemma RunTagExample(t: StringTable)
    ensures ReadValue([4, 0, 3, 0x31, 2, 0x30], 0, t, 7) == Success(Parsed(String("11100"), 6))
  {
    var d: seq<byte> := [4, 0, 3, 0x31, 2, 0x30];
    RunTag(d, 0, t, 2);
    assert d[2..6] == [3, 0x31, 2, 0x30];
    assert Expand([2, 0x30]) == "00" by {
      assert Repeat('0', 2) == "00";
      assert [2, 0x30][2..] == [];
    }
    assert Expand([3, 0x31, 2, 0x30]) == "11100" by {
      assert Repeat('1', 3) == "111";
      assert [3, 0x31, 2, 0x30][2..] == [2, 0x30];
    }
  }

  /** An odd byte count drops its last byte. */
  lemma RunTagOddCount(t: StringTable)
    ensures ReadValue([3, 0, 2, 0x41, 9], 0, t, 7) == Success(Parsed(String("AA"), 4))
  {
    var d: seq<byte> := [3, 0, 2, 0x41, 9];
    RunTag(d, 0, t, 1);
    assert d[2..4] == [2, 0x41];
    assert Expand([2, 0x41]) == "AA" by {
      assert Repeat('A', 2) == "AA";
      assert [2, 0x41][2..] == [];
    }
  }

  /** A zero byte count gives the empty text. */
  lemma RunTagEmpty(t: StringTable)
    ensures ReadValue([0, 0], 0, t, 7) == Success(Parsed(String(""), 2))
  {
    RunTag([0, 0], 0, t, 0);
  }

  // ---------------------------------------------------------------
  // Child count
  // ---------------------------------------------------------------

  /** The children of an element number max(0, N) for the i16 count N
      read; a negative count reads no children and ends right after the
      count. */
  lemma ChildCount(d: seq<byte>, q: nat, t: StringTable, name: string, m: map<string, Value>)
    requires q + 2 <= |d|
    ensures var nc := Signed16(Le16(d[q], d[q + 1]));
            && (ReadElementTail(d, q, t, name, m).Success? ==>
                  |ReadElementTail(d, q, t, name, m).value.val.children| == (if nc < 0 then 0 else nc))
            && (nc <= 0 ==> ReadElementTail(d, q, t, name, m) == Success(Parsed(Element(name, m, []), q + 2)))
  {
  }

  // ---------------------------------------------------------------
  // Values read back from their encodings
  // ---------------------------------------------------------------

  /** A value that can be written: a string must be short. */
  predicate Writable(v: Value) {
    v.String? ==> Short(v.s)
  }

  /** The tag a value is written with: the widest form of each variant. */
  function TagOf(v: Value): byte {
    match v
    case Bool(_) => 0
    case Int(_) => 3
    case Float(_) => 4
    case String(_) => 6
  }

  /** The payload of a value written with `TagOf(v)`. */
  function EncodeValue(v: Value): seq<byte>
    requires Writable(v)
  {
    match v
    case Bool(b) => [if b then 1 else 0]
    case Int(i) => LeBytes32(i)
    case Float(bits) => LeBytesU32(bits)
    case String(s) => EncodeString(s)
  }

  /** `bs` lies in `d` at `p`. */
  predicate At(d: seq<byte>, p: nat, bs: seq<byte>)
    decreases |bs|
  {
    if bs == [] then p <= |d| else p < |d| && d[p] == bs[0] && At(d, p + 1, bs[1..])
  }

  lemma {:induction false} AtBound(d: seq<byte>, p: nat, bs: seq<byte>)
    requires At(d, p, bs)
    ensures p + |bs| <= |d|
    decreases |bs|
  {
    if bs != [] {
      AtBound(d, p + 1, bs[1..]);
    }
  }

  lemma {:induction false} AtIndex(d: seq<byte>, p: nat, bs: seq<byte>, k: nat)
    requires At(d, p, bs) && k < |bs|
    ensures p + k < |d| && d[p + k] == bs[k]
    decreases k
  {
    if k > 0 {
      AtIndex(d, p + 1, bs[1..], k - 1);
    }
  }

  lemma {:induction false} AtSlice(d: seq<byte>, p: nat, bs: seq<byte>)
    requires At(d, p, bs)
    ensures p + |bs| <= |d| && d[p..p + |bs|] == bs
  {
    AtBound(d, p, bs);
    forall k | 0 <= k < |bs|
      ensures d[p..p + |bs|][k] == bs[k]
    {
      AtIndex(d, p, bs, k);
    }
  }

  lemma {:induction false} AtSplit(d: seq<byte>, p: nat, a: seq<byte>, b: seq<byte>)
    requires At(d, p, a + b)
    ensures At(d, p, a) && At(d, p + |a|, b)
    decreases |a|
  {
    if a != [] {
      assert (a + b)[1..] == a[1..] + b;
      AtSplit(d, p + 1, a[1..], b);
    } else {
      assert a + b == b;
    }
  }

  /** A string read back from its encoding. */
  lemma StringAt(d: seq<byte>, p: nat, s: string)
    requires Short(s) && At(d, p, EncodeString(s))
    ensures ReadString(d, p) == Success(Parsed(s, p + |EncodeString(s)|))
  {
    AtSlice(d, p, EncodeString(s));
    StringRoundTrip(d, p, s);
  }

  /** Every value, written with its tag, reads back as itself and takes
      exactly its payload. */
  lemma ValueRoundTrip(d: seq<byte>, p: nat, t: StringTable, v: Value)
    requires Writable(v) && At(d, p, EncodeValue(v))
    ensures ReadValue(d, p, t, TagOf(v)) == Success(Parsed(v, p + |EncodeValue(v)|))
  {
    match v
    case Bool(b) => BoolRoundTrip(d, p, t, b);
    case Int(i) => IntRoundTrip(d, p, t, i);
    case Float(bits) => FloatRoundTrip(d, p, t, bits);
    case String(s) => StringAt(d, p, s);
  }

  lemma BoolRoundTrip(d: seq<byte>, p: nat, t: StringTable, b: bool)
    requires At(d, p, EncodeValue(Bool(b)))
    ensures ReadValue(d, p, t, 0) == Success(Parsed(Bool(b), p + 1))
  {
    AtIndex(d, p, EncodeValue(Bool(b)), 0);
  }

  /** Tag 0 is one byte, any nonzero byte being true. */
  lemma BoolTag(d: seq<byte>, p: nat, t: StringTable)
    requires p < |d|
    ensures ReadValue(d, p, t, 0) == Success(Parsed(Bool(d[p] != 0), p + 1))
  {
  }

  lemma IntRoundTrip(d: seq<byte>, p: nat, t: StringTable, i: i32)
    requires At(d, p, LeBytes32(i))
    ensures ReadValue(d, p, t, 3) == Success(Parsed(Int(i), p + 4))
  {
    var bs := LeBytes32(i);
    AtIndex(d, p, bs, 0); AtIndex(d, p, bs, 1); AtIndex(d, p, bs, 2); AtIndex(d, p, bs, 3);
  }

  lemma FloatRoundTrip(d: seq<byte>, p: nat, t: StringTable, bits: u32)
    requires At(d, p, LeBytesU32(bits))
    ensures ReadValue(d, p, t, 4) == Success(Parsed(Float(bits), p + 4))
  {
    var bs := LeBytesU32(bits);
    AtIndex(d, p, bs, 0); AtIndex(d, p, bs, 1); AtIndex(d, p, bs, 2); AtIndex(d, p, bs, 3);
  }

  /** Tag 4 as element.rs:38 reads it (`get_f32`, big-endian) and as the
      decoder here reads it (little-endian) fail alike, and where they
      succeed the as-written bits are the decoder's bits with their four
      bytes reversed. */
  lemma FloatTagByteOrder(d: seq<byte>, p: nat, t: StringTable)
    requires p <= |d|
    ensures ReadValue(d, p, t, 4).Success? <==> ReadF32BitsAsWritten(d, p).Success?
    ensures p + 4 <= |d| ==>
              var m := LeBytesU32(ReadValue(d, p, t, 4).value.val.bits);
              && ReadValue(d, p, t, 4).value.next == ReadF32BitsAsWritten(d, p).value.next
              && LeBytesU32(ReadF32BitsAsWritten(d, p).value.val) == [m[3], m[2], m[1], m[0]]
  {
    FixedReadsInvert(d, p);
  }

  /** Tags 1 and 2 widen to an Int: a byte zero-extended, an i16
      sign-extended. */
  lemma NarrowIntTags(d: seq<byte>, p: nat, t: StringTable, b: byte, h: i16)
    requires p < |d| && d[p] == b
    requires At(d, p, LeBytes16(h))
    ensures ReadValue(d, p, t, 1) == Success(Parsed(Int(b), p + 1)) && b >= 0
    ensures ReadValue(d, p, t, 2) == Success(Parsed(Int(h), p + 2))
  {
    AtIndex(d, p, LeBytes16(h), 0);
    AtIndex(d, p, LeBytes16(h), 1);
  }

  /** Tag 5 gives the table entry at the i16 index read. */
  lemma IndexTag(d: seq<byte>, p: nat, t: StringTable, i: i16)
    requires 0 <= i < |t| && At(d, p, LeBytes16(i))
    ensures ReadValue(d, p, t, 5) == Success(Parsed(String(t[i]), p + 2))
  {
    AtIndex(d, p, LeBytes16(i), 0);
    AtIndex(d, p, LeBytes16(i), 1);
  }

  /** Tag 6 gives the length-prefixed text read. */
  lemma InlineTag(d: seq<byte>, p: nat, t: StringTable, s: string)
    requires Short(s) && At(d, p, EncodeString(s))
    ensures ReadValue(d, p, t, 6) == Success(Parsed(String(s), p + |EncodeString(s)|))
  {
    StringAt(d, p, s);
  }

  /** A table string (tag 5) and the same text written inline (tag 6) are
      the same `Value::String`: nothing downstream can tell them apart. */
  lemma TableAndInlineStrings(d: seq<byte>, p: nat, e: seq<byte>, q: nat, t: StringTable, i: i16)
    requires 0 <= i < |t| && Short(t[i])
    requires At(d, p, LeBytes16(i)) && At(e, q, EncodeString(t[i]))
    ensures ReadValue(d, p, t, 5).Success? && ReadValue(e, q, t, 6).Success?
    ensures ReadValue(d, p, t, 5).value.val == ReadValue(e, q, t, 6).value.val
  {
    IndexTag(d, p, t, i);
    InlineTag(e, q, t, t[i]);
  }

  // ---------------------------------------------------------------
  // The header
  // ---------------------------------------------------------------

  /** Length-prefixed strings one after the other. */
  function EncodeStrings(ss: seq<string>): (bs: seq<byte>)
    requires forall i :: 0 <= i < |ss| ==> Short(ss[i])
    decreases |ss|, 1
  {
    if ss == [] then [] else EncodeStringsFrom(ss)
  }

  function EncodeStringsFrom(ss: seq<string>): (bs: seq<byte>)
    requires ss != [] && forall i :: 0 <= i < |ss| ==> Short(ss[i])
    decreases |ss|, 0
  {
    EncodeString(ss[0]) + EncodeStrings(ss[1..])
  }

  /** A string read, then `n - 1` more: `n` strings. */
  lemma StringsJoin(d: seq<byte>, p: nat, ss: seq<string>, q: nat, e: nat)
    requires ss != [] && p <= |d| && ReadString(d, p) == Success(Parsed(ss[0], q))
    requires q <= |d| && ReadStrings(d, q, |ss| - 1) == Success(Parsed(ss[1..], e))
    ensures ReadStrings(d, p, |ss|) == Success(Parsed(ss, e))
  {
    assert [ss[0]] + ss[1..] == ss;
  }

  /** The first of the strings laid out at `p`, and where the others start. */
  lemma StringsHead(d: seq<byte>, p: nat, ss: seq<string>)
    requires ss != [] && forall i :: 0 <= i < |ss| ==> Short(ss[i])
    requires At(d, p, EncodeStrings(ss))
    ensures ReadString(d, p) == Success(Parsed(ss[0], p + |EncodeString(ss[0])|))
    ensures At(d, p + |EncodeString(ss[0])|, EncodeStrings(ss[1..]))
    ensures p + |EncodeStrings(ss)| == p + |EncodeString(ss[0])| + |EncodeStrings(ss[1..])|
  {
    assert EncodeStrings(ss) == EncodeString(ss[0]) + EncodeStrings(ss[1..]);
    AtSplit(d, p, EncodeString(ss[0]), EncodeStrings(ss[1..]));
    StringAt(d, p, ss[0]);
  }

  /** Reading strings one after the other from `p` gives `ss` and stops at `e`. */
  ghost predicate ReadsInOrder(d: seq<byte>, p: nat, ss: seq<string>, e: nat)
    decreases |ss|
  {
    if ss == [] then p == e
    else p <= |d| && ReadString(d, p).Success? && ReadString(d, p).value.val == ss[0]
         && ReadsInOrder(d, ReadString(d, p).value.next, ss[1..], e)
  }

  lemma {:induction false} ReadStringsInOrder(d: seq<byte>, p: nat, ss: seq<string>, e: nat)
    requires p <= |d| && ReadsInOrder(d, p, ss, e)
    ensures ReadStrings(d, p, |ss|) == Success(Parsed(ss, e))
    decreases |ss|
  {
    if ss != [] {
      var r := ReadString(d, p).value;
      ReadStringsInOrder(d, r.next, ss[1..], e);
      StringsJoin(d, p, ss, r.next, e);
    }
  }

  lemma InOrderCons(d: seq<byte>, p: nat, ss: seq<string>, q: nat, e: nat)
    requires ss != [] && p <= |d| && ReadString(d, p) == Success(Parsed(ss[0], q))
    requires ReadsInOrder(d, q, ss[1..], e)
    ensures ReadsInOrder(d, p, ss, e)
  {
  }

  lemma {:induction false} EncodedInOrder(d: seq<byte>, p: nat, ss: seq<string>, e: nat)
    requires forall i :: 0 <= i < |ss| ==> Short(ss[i])
    requires At(d, p, EncodeStrings(ss)) && e == p + |EncodeStrings(ss)|
    ensures ReadsInOrder(d, p, ss, e)
    decreases |ss|
  {
    if ss == [] {
      assert e == p;
    } else {
      StringsHead(d, p, ss);
      var q := p + |EncodeString(ss[0])|;
      EncodedInOrder(d, q, ss[1..], e);
      InOrderCons(d, p, ss, q, e);
    }
  }

  /** `n` strings read back from their encodings, in order. */
  lemma StringsRoundTrip(d: seq<byte>, p: nat, ss: seq<string>)
    requires forall i :: 0 <= i < |ss| ==> Short(ss[i])
    requires At(d, p, EncodeStrings(ss))
    ensures ReadStrings(d, p, |ss|) == Success(Parsed(ss, p + |EncodeStrings(ss)|))
  {
    var e := p + |EncodeStrings(ss)|;
    EncodedInOrder(d, p, ss, e);
    AtBound(d, p, EncodeStrings(ss));
    ReadStringsInOrder(d, p, ss, e);
  }

  /** The string table: its i16 count, then its strings. */
  lemma TableRoundTrip(d: seq<byte>, p: nat, table: StringTable)
    requires forall i :: 0 <= i < |table| ==> Short(table[i])
    requires At(d, p, LeBytes16(|table|) + EncodeStrings(table))
    ensures ReadTable(d, p) == Success(Parsed(table, p + 2 + |EncodeStrings(table)|))
  {
    var c := LeBytes16(|table|);
    AtSplit(d, p, c, EncodeStrings(table));
    AtIndex(d, p, c, 0);
    AtIndex(d, p, c, 1);
    StringsRoundTrip(d, p + 2, table);
  }

  /** The header, given what each of its parts reads as. */
  lemma HeaderJoin(d: seq<byte>, format: string, q1: nat, package: string, q2: nat, table: StringTable, e: nat)
    requires ReadString(d, 0) == Success(Parsed(format, q1))
    requires q1 <= |d| && ReadString(d, q1) == Success(Parsed(package, q2))
    requires q2 <= |d| && ReadTable(d, q2) == Success(Parsed(table, e))
    ensures ReadHeader(d) == Success(Parsed(table, e))
  {
  }

  /** The header: the two strings the decoder skips, the i16 count, then
      the table. */
  function EncodeHeader(format: string, package: string, table: StringTable): seq<byte>
    requires Short(format) && Short(package)
    requires forall i :: 0 <= i < |table| ==> Short(table[i])
  {
    EncodeString(format) + (EncodeString(package) + (LeBytes16(|table|) + EncodeStrings(table)))
  }

  /** The header read back: whatever the two skipped strings hold, the
      table is the strings written, in order and with their number. */
  lemma HeaderRoundTrip(d: seq<byte>, format: string, package: string, table: StringTable)
    requires Short(format) && Short(package)
    requires forall i :: 0 <= i < |table| ==> Short(table[i])
    requires At(d, 0, EncodeHeader(format, package, table))
    ensures ReadHeader(d) == Success(Parsed(table, |EncodeHeader(format, package, table)|))
  {
    var a := |EncodeString(format)|;
    var b := |EncodeString(package)|;
    var rest := LeBytes16(|table|) + EncodeStrings(table);
    var e := a + b + 2 + |EncodeStrings(table)|;
    SkippedStrings(d, format, package, rest);
    AtBound(d, a + b, rest);
    assert |rest| == 2 + |EncodeStrings(table)|;
    TableRoundTrip(d, a + b, table);
    HeaderJoin(d, format, a, package, a + b, table, e);
    assert |EncodeHeader(format, package, table)| == e;
  }

  /** The two strings in front of the table, read one after the other. */
  lemma SkippedStrings(d: seq<byte>, format: string, package: string, rest: seq<byte>)
    requires Short(format) && Short(package)
    requires At(d, 0, EncodeString(format) + (EncodeString(package) + rest))
    ensures ReadString(d, 0) == Success(Parsed(format, |EncodeString(format)|))
    ensures ReadString(d, |EncodeString(format)|)
         == Success(Parsed(package, |EncodeString(format)| + |EncodeString(package)|))
    ensures At(d, |EncodeString(format)| + |EncodeString(package)|, rest)
  {
    var a := EncodeString(format);
    var b := EncodeString(package);
    AtSplit(d, 0, a, b + rest);
    AtSplit(d, |a|, b, rest);
    StringAt(d, 0, format);
    StringAt(d, |a|, package);
  }
}
