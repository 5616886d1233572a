/** The byte cursor of element.rs: the fixed-width reads of the `Buf`
    trait that the decoder uses, and the `BufExt` extension with its
    variable-length integer and length-prefixed string.

    Each read is first a function of the buffer and a position, giving
    the value and the position after it, or the error that stands for
    the original's panic. The `Cursor` class then performs the same
    reads by advancing a position in place, as `Bytes` does, and each of
    its methods is proved to agree with its function. */
module Buf {
  import opened Wrappers
  import opened Wire
  import Utf8

  // ---------------------------------------------------------------
  // Reads as functions of (buffer, position)
  // ---------------------------------------------------------------

  /** `get_u8`: the byte at `p`, or an underrun at the end of the data. */
  function ReadU8(d: seq<byte>, p: nat): (r: Read<byte>)
    requires p <= |d|
    ensures r.Success? <==> p < |d|
    ensures r.Success? ==> r.value == Parsed(d[p], p + 1)
    ensures r.Failure? ==> r.error == BufferUnderrun
  {
    if p + 1 <= |d| then Success(Parsed(d[p], p + 1)) else Failure(BufferUnderrun)
  }

  /** `get_i16_le`: the i16 whose little-endian bytes are the two at `p`. */
  function ReadI16Le(d: seq<byte>, p: nat): (r: Read<i16>)
    requires p <= |d|
    ensures r.Success? <==> p + 2 <= |d|
    ensures r.Success? ==> r.value.next == p + 2
    ensures r.Failure? ==> r.error == BufferUnderrun
  {
    if p + 2 <= |d| then Success(Parsed(Signed16(Le16(d[p], d[p + 1])), p + 2))
    else Failure(BufferUnderrun)
  }

  /** `get_i32_le`: the i32 whose little-endian bytes are the four at `p`. */
  function ReadI32Le(d: seq<byte>, p: nat): (r: Read<i32>)
    requires p <= |d|
    ensures r.Success? <==> p + 4 <= |d|
    ensures r.Success? ==> r.value.next == p + 4
    ensures r.Failure? ==> r.error == BufferUnderrun
  {
    if p + 4 <= |d| then Success(Parsed(Signed32(Le32(d[p], d[p + 1], d[p + 2], d[p + 3])), p + 4))
    else Failure(BufferUnderrun)
  }

  /** The 32 bits of an f32 exactly as element.rs:38 reads them: `get_f32`
      is the big-endian read of the `bytes` crate. */
  function ReadF32BitsAsWritten(d: seq<byte>, p: nat): (r: Read<u32>)
    requires p <= |d|
    ensures r.Success? <==> p + 4 <= |d|
    ensures r.Success? ==> r.value.next == p + 4
    ensures r.Failure? ==> r.error == BufferUnderrun
  {
    if p + 4 <= |d| then Success(Parsed(Le32(d[p + 3], d[p + 2], d[p + 1], d[p]), p + 4))
    else Failure(BufferUnderrun)
  }

  /** The 32 bits of a little-endian f32 (`get_f32_le`), the byte order in
      which the format stores every other number. */
  function ReadF32BitsLe(d: seq<byte>, p: nat): (r: Read<u32>)
    requires p <= |d|
    ensures r.Success? <==> p + 4 <= |d|
    ensures r.Success? ==> r.value.next == p + 4
    ensures r.Failure? ==> r.error == BufferUnderrun
  {
    if p + 4 <= |d| then Success(Parsed(Le32(d[p], d[p + 1], d[p + 2], d[p + 3]), p + 4))
    else Failure(BufferUnderrun)
  }

  /** Each fixed-width read inverts its writer: the bytes read are the
      little-endian bytes of the value, except for the as-written f32 read,
      which takes them in the reverse order. */
  lemma FixedReadsInvert(d: seq<byte>, p: nat)
    requires p <= |d|
    ensures p + 2 <= |d| ==> LeBytes16(ReadI16Le(d, p).value.val) == d[p..p + 2]
    ensures p + 4 <= |d| ==> LeBytes32(ReadI32Le(d, p).value.val) == d[p..p + 4]
    ensures p + 4 <= |d| ==> LeBytesU32(ReadF32BitsLe(d, p).value.val) == d[p..p + 4]
    ensures p + 4 <= |d| ==>
              LeBytesU32(ReadF32BitsAsWritten(d, p).value.val) == [d[p + 3], d[p + 2], d[p + 1], d[p]]
  {
    if p + 2 <= |d| {
      LeBytes16Of(d[p], d[p + 1]);
    }
    if p + 4 <= |d| {
      LeBytes32Of(d[p], d[p + 1], d[p + 2], d[p + 3]);
      LeBytesU32Of(d[p], d[p + 1], d[p + 2], d[p + 3]);
      LeBytesU32Of(d[p + 3], d[p + 2], d[p + 1], d[p]);
    }
  }

  /** The f32 1.0 as the format stores it, little-endian: the as-written
      read takes its bits for 0x0000803F, the little-endian read gives
      back the 0x3F800000 written. */
  lemma F32ByteOrderCounterexample()
    ensures ReadF32BitsAsWritten([0x00, 0x00, 0x80, 0x3F], 0) == Success(Parsed(0x0000_803F, 4))
    ensures ReadF32BitsLe([0x00, 0x00, 0x80, 0x3F], 0) == Success(Parsed(0x3F80_0000, 4))
    ensures ReadF32BitsAsWritten([0x00, 0x00, 0x80, 0x3F], 0) != ReadF32BitsLe([0x00, 0x00, 0x80, 0x3F], 0)
  {
  }

  /** `g << (7 * k)`, a group shifted past `k` groups below it, as an
      unbounded integer. */
  function ShiftLeft(g: int, k: nat): (r: int)
    ensures 0 <= g ==> g <= r
  {
    if k == 0 then g else 0x80 * ShiftLeft(g, k - 1)
  }

  /** The turns of the `get_var_int` loop from byte `p` on, given the value
      accumulated from the `k` groups before it (the shift `position` of
      the original is `7 * k`). The `|=` of a 7-bit group shifted left is
      an addition here: the groups occupy disjoint bits, and what the
      last group pushes past bit 31 is dropped by the final reduction
      modulo 2^32. */
  function VarIntLoop(d: seq<byte>, p: nat, value: int, k: nat): (r: Read<i32>)
    requires p <= |d| && k < 5
    ensures r.Success? ==> p < r.value.next <= |d|
    decreases 5 - k, 1
  {
    if p == |d| then Failure(BufferUnderrun) else VarIntByte(d, p, value, k)
  }

  /** The turn that consumes byte `p`. */
  function VarIntByte(d: seq<byte>, p: nat, value: int, k: nat): (r: Read<i32>)
    requires p < |d| && k < 5
    ensures r.Success? ==> p < r.value.next <= |d|
    decreases 5 - k, 0
  {
    var b := d[p];
    var value' := value + ShiftLeft(b % 0x80, k);
    if b < 0x80 then Success(Parsed(Signed32(value' % TWO_32), p + 1))
    else if 7 * (k + 1) >= 32 then Failure(VarIntTooLong)
    else VarIntLoop(d, p + 1, value', k + 1)
  }

  lemma VarIntLoopTurn(d: seq<byte>, p: nat, value: int, k: nat)
    requires p < |d| && k < 5
    ensures VarIntLoop(d, p, value, k) == VarIntByte(d, p, value, k)
  {
  }

  /** `get_var_int`. */
  function ReadVarInt(d: seq<byte>, p: nat): (r: Read<i32>)
    requires p <= |d|
    ensures r.Success? ==> p < r.value.next <= |d|
    ensures p < |d| && d[p] < 0x80 ==> r == Success(Parsed(d[p] as i32, p + 1))
  {
    VarIntLoop(d, p, 0, 0)
  }

  /** `get_string`: a varint length, then that many bytes as UTF-8. A
      negative length makes `Vec::with_capacity(length as usize)` panic. */
  function ReadString(d: seq<byte>, p: nat): (r: Read<string>)
    requires p <= |d|
    ensures r.Success? ==> p < r.value.next <= |d|
  {
    var len :- ReadVarInt(d, p);
    ReadText(d, len.next, len.val)
  }

  /** The `len` bytes at `p` as UTF-8, the second half of `get_string`. */
  function ReadText(d: seq<byte>, p: nat, len: i32): (r: Read<string>)
    requires p <= |d|
    ensures r.Success? <==> 0 <= len && p + len <= |d| && Utf8.Decode(d[p..p + len]).Some?
    ensures r.Success? ==> r.value == Parsed(Utf8.Decode(d[p..p + len]).value, p + len)
    ensures len < 0 ==> r == Failure(CapacityOverflow)
    ensures 0 <= len && p + len > |d| ==> r == Failure(BufferUnderrun)
    ensures 0 <= len && p + len <= |d| && Utf8.Decode(d[p..p + len]).None? ==> r == Failure(InvalidUtf8)
  {
    if len < 0 then Failure(CapacityOverflow)
    else if p + len > |d| then Failure(BufferUnderrun)
    else
      match Utf8.Decode(d[p..p + len])
      case None => Failure(InvalidUtf8)
      case Some(s) => Success(Parsed(s, p + len))
  }

  // ---------------------------------------------------------------
  // What the varint decoder computes
  // ---------------------------------------------------------------

  /** The 7-bit groups of `bs`, least significant first, as one number. */
  function Groups(bs: seq<byte>): nat {
    if bs == [] then 0 else bs[0] % 0x80 + 0x80 * Groups(bs[1..])
  }

  /** The `n` bytes from `p` on all carry the continuation bit. */
  ghost predicate Continues(d: seq<byte>, p: nat, n: nat)
    requires p + n <= |d|
  {
    forall k :: p <= k < p + n ==> d[k] >= 0x80
  }

  lemma {:induction false} ShiftStep(g: int, k: nat)
    ensures ShiftLeft(g, k + 1) == ShiftLeft(0x80 * g, k)
  {
    if k > 0 {
      ShiftStep(g, k - 1);
    }
  }

  lemma {:induction false} ShiftAdd(a: int, b: int, k: nat)
    ensures ShiftLeft(a, k) + ShiftLeft(b, k) == ShiftLeft(a + b, k)
  {
    if k > 0 {
      ShiftAdd(a, b, k - 1);
    }
  }

  /** A low group `a` and the groups `b` above it, shifted together. */
  lemma ShiftCombine(a: int, b: int, g: int, k: nat)
    requires g == a + 0x80 * b
    ensures ShiftLeft(a, k) + ShiftLeft(b, k + 1) == ShiftLeft(g, k)
  {
    ShiftStep(b, k);
    ShiftAdd(a, 0x80 * b, k);
  }

  /** `m` split into its low group and the rest. */
  lemma ShiftSplit(acc: int, m: nat, k: nat)
    ensures acc + ShiftLeft(m, k) == (acc + ShiftLeft(m % 0x80, k)) + ShiftLeft(m / 0x80, k + 1)
  {
    ShiftCombine(m % 0x80, m / 0x80, m, k);
  }

  lemma GroupsStep(d: seq<byte>, p: nat, q: nat)
    requires p < q <= |d|
    ensures Groups(d[p..q]) == d[p] % 0x80 + 0x80 * Groups(d[p + 1..q])
  {
    assert d[p..q][1..] == d[p + 1..q];
  }

  /** What a result `r` of `VarIntLoop` from byte `p`, after `k` groups
      worth `acc`, has to be, stated relative to the bytes still to be
      read: on success, ... */
  ghost predicate OkFrom(d: seq<byte>, p: nat, acc: int, k: nat, r: Read<i32>)
    requires p <= |d| && k < 5
  {
    r.Success? ==>
      && p < r.value.next <= p + 5 - k && r.value.next <= |d|
      && Continues(d, p, r.value.next - p - 1) && d[r.value.next - 1] < 0x80
      && r.value.val == Signed32((acc + ShiftLeft(Groups(d[p..r.value.next]), k)) % TWO_32)
  }

  /** ... too long exactly when the remaining groups all continue ... */
  ghost predicate TooLongFrom(d: seq<byte>, p: nat, k: nat, r: Read<i32>)
    requires p <= |d| && k < 5
  {
    r == Failure(VarIntTooLong) <==> p + 5 - k <= |d| && Continues(d, p, 5 - k)
  }

  /** ... short exactly when the data ends while every byte continues ... */
  ghost predicate UnderrunFrom(d: seq<byte>, p: nat, k: nat, r: Read<i32>)
    requires p <= |d| && k < 5
  {
    r == Failure(BufferUnderrun) <==> |d| - p < 5 - k && Continues(d, p, |d| - p)
  }

  /** ... and no other error. */
  predicate ErrorsOf(r: Read<i32>) {
    r.Failure? ==> r.error == VarIntTooLong || r.error == BufferUnderrun
  }

  ghost predicate MeetsFrom(d: seq<byte>, p: nat, acc: int, k: nat, r: Read<i32>)
    requires p <= |d| && k < 5
  {
    OkFrom(d, p, acc, k, r) && TooLongFrom(d, p, k, r) && UnderrunFrom(d, p, k, r) && ErrorsOf(r)
  }

  lemma VarIntLoopSpecStop(d: seq<byte>, p: nat, acc: int, k: nat)
    requires p < |d| && k < 5 && d[p] < 0x80
    ensures MeetsFrom(d, p, acc, k, VarIntLoop(d, p, acc, k))
  {
    VarIntLoopTurn(d, p, acc, k);
    assert d[p..p + 1] == [d[p]];
    assert Groups([d[p]]) == d[p] % 0x80;
  }

  lemma VarIntLoopSpecLast(d: seq<byte>, p: nat, acc: int)
    requires p < |d| && d[p] >= 0x80
    ensures MeetsFrom(d, p, acc, 4, VarIntLoop(d, p, acc, 4))
  {
    VarIntLoopTurn(d, p, acc, 4);
  }

  /** The value accumulated over bytes `p` to `q`, one group at a time. */
  lemma StepValue(d: seq<byte>, p: nat, q: nat, acc: int, k: nat)
    requires p < q <= |d|
    ensures acc + ShiftLeft(Groups(d[p..q]), k)
         == (acc + ShiftLeft(d[p] % 0x80, k)) + ShiftLeft(Groups(d[p + 1..q]), k + 1)
  {
    GroupsStep(d, p, q);
    ShiftCombine(d[p] % 0x80, Groups(d[p + 1..q]), Groups(d[p..q]), k);
  }

  lemma ContinuesStep(d: seq<byte>, p: nat, n: nat)
    requires p < |d| && p + n + 1 <= |d|
    ensures Continues(d, p, n + 1) <==> d[p] >= 0x80 && Continues(d, p + 1, n)
  {
  }

  lemma StepOk(d: seq<byte>, p: nat, acc: int, k: nat, r: Read<i32>)
    requires p < |d| && k < 4 && d[p] >= 0x80
    requires OkFrom(d, p + 1, acc + ShiftLeft(d[p] % 0x80, k), k + 1, r)
    ensures OkFrom(d, p, acc, k, r)
  {
    if r.Success? {
      ContinuesStep(d, p, r.value.next - p - 2);
      StepValue(d, p, r.value.next, acc, k);
    }
  }

  lemma StepTooLong(d: seq<byte>, p: nat, k: nat, r: Read<i32>)
    requires p < |d| && k < 4 && d[p] >= 0x80
    requires TooLongFrom(d, p + 1, k + 1, r)
    ensures TooLongFrom(d, p, k, r)
  {
    if p + 5 - k <= |d| {
      ContinuesStep(d, p, 4 - k);
    }
  }

  lemma StepUnderrun(d: seq<byte>, p: nat, k: nat, r: Read<i32>)
    requires p < |d| && k < 4 && d[p] >= 0x80
    requires UnderrunFrom(d, p + 1, k + 1, r)
    ensures UnderrunFrom(d, p, k, r)
  {
    ContinuesStep(d, p, |d| - p - 1);
  }

  lemma VarIntLoopSpecStep(d: seq<byte>, p: nat, acc: int, k: nat)
    requires p < |d| && k < 4 && d[p] >= 0x80
    requires var acc' := acc + ShiftLeft(d[p] % 0x80, k);
      MeetsFrom(d, p + 1, acc', k + 1, VarIntLoop(d, p + 1, acc', k + 1))
    ensures MeetsFrom(d, p, acc, k, VarIntLoop(d, p, acc, k))
  {
    var acc' := acc + ShiftLeft(d[p] % 0x80, k);
    var r := VarIntLoop(d, p + 1, acc', k + 1);
    VarIntLoopContinue(d, p, acc, k, d[p] % 0x80);
    StepOk(d, p, acc, k, r);
    StepTooLong(d, p, k, r);
    StepUnderrun(d, p, k, r);
  }

  lemma {:induction false} VarIntLoopSpec(d: seq<byte>, p: nat, acc: int, k: nat)
    requires p <= |d| && k < 5
    ensures MeetsFrom(d, p, acc, k, VarIntLoop(d, p, acc, k))
    decreases 5 - k
  {
    if p < |d| {
      if d[p] < 0x80 {
        VarIntLoopSpecStop(d, p, acc, k);
      } else if k == 4 {
        VarIntLoopSpecLast(d, p, acc);
      } else {
        VarIntLoopSpec(d, p + 1, acc + ShiftLeft(d[p] % 0x80, k), k + 1);
        VarIntLoopSpecStep(d, p, acc, k);
      }
    }
  }

  /** The varint contract: decoding stops at the first byte without the
      continuation bit, takes at most five bytes, and yields the 7-bit
      groups read as one number, reduced to 32 bits. A fifth byte that
      still continues is an error, and so is running out of bytes first. */
  lemma ReadVarIntSpec(d: seq<byte>, p: nat)
    requires p <= |d|
    ensures var r := ReadVarInt(d, p);
      && (r.Success? ==>
            && p < r.value.next <= p + 5
            && Continues(d, p, r.value.next - p - 1) && d[r.value.next - 1] < 0x80
            && r.value.val == Signed32(Groups(d[p..r.value.next]) % TWO_32))
      && (r == Failure(VarIntTooLong) <==> p + 5 <= |d| && Continues(d, p, 5))
      && (r == Failure(BufferUnderrun) <==> |d| - p < 5 && Continues(d, p, |d| - p))
      && (r.Failure? ==> r.error == VarIntTooLong || r.error == BufferUnderrun)
  {
    VarIntLoopSpec(d, p, 0, 0);
  }

  /** The 7-bit continuation encoding of a non-negative number. */
  function EncodeVarInt(n: nat): (bs: seq<byte>)
    ensures |bs| >= 1
    decreases n
  {
    if n < 0x80 then [n] else [n % 0x80 + 0x80] + EncodeVarInt(n / 0x80)
  }

  lemma VarIntLoopContinue(d: seq<byte>, p: nat, acc: int, k: nat, g: int)
    requires p < |d| && d[p] >= 0x80 && k < 4 && g == d[p] % 0x80
    ensures VarIntLoop(d, p, acc, k) == VarIntLoop(d, p + 1, acc + ShiftLeft(g, k), k + 1)
  {
    VarIntLoopTurn(d, p, acc, k);
  }

  lemma VarIntLoopStop(d: seq<byte>, p: nat, acc: int, k: nat)
    requires p < |d| && d[p] < 0x80 && k < 5
    requires 0 <= acc + ShiftLeft(d[p], k) < 0x8000_0000
    ensures VarIntLoop(d, p, acc, k) == Success(Parsed(acc + ShiftLeft(d[p], k), p + 1))
  {
    VarIntLoopTurn(d, p, acc, k);
  }

  lemma EncodedTail(d: seq<byte>, p: nat, m: nat)
    requires m >= 0x80
    requires p + |EncodeVarInt(m)| <= |d| && d[p..p + |EncodeVarInt(m)|] == EncodeVarInt(m)
    ensures d[p] == m % 0x80 + 0x80
    ensures d[p] >= 0x80 && d[p] % 0x80 == m % 0x80
    ensures |EncodeVarInt(m)| == 1 + |EncodeVarInt(m / 0x80)|
    ensures d[p + 1..p + 1 + |EncodeVarInt(m / 0x80)|] == EncodeVarInt(m / 0x80)
  {
    var e := EncodeVarInt(m);
    assert d[p] == e[0];
    assert d[p + 1..p + |e|] == e[1..];
  }

  /** Four groups up, a group is multiplied by 2^28. */
  lemma ShiftFour(g: int)
    ensures ShiftLeft(g, 4) == 0x1000_0000 * g
  {
    assert ShiftLeft(g, 1) == 0x80 * g;
    assert ShiftLeft(g, 2) == 0x80 * ShiftLeft(g, 1);
    assert ShiftLeft(g, 3) == 0x80 * ShiftLeft(g, 2);
  }

  lemma NoSixthGroup(m: nat, k: nat)
    requires k < 5 && m >= 0x80 && ShiftLeft(m, k) < 0x8000_0000
    ensures k < 4
  {
    ShiftFour(m);
  }

  lemma VarIntLoopEncodedOne(d: seq<byte>, p: nat, acc: nat, k: nat, m: nat)
    requires k < 5 && m < 0x80 && acc + ShiftLeft(m, k) < 0x8000_0000
    requires p + |EncodeVarInt(m)| <= |d| && d[p..p + |EncodeVarInt(m)|] == EncodeVarInt(m)
    ensures ReadsEncoded(d, p, acc, k, m)
  {
    assert d[p..p + 1] == [m];
    VarIntLoopStop(d, p, acc, k);
  }

  /** What `VarIntLoop` gives on the encoding of `m` at `p`, after `k`
      groups worth `acc`. */
  function EncodedResult(p: nat, acc: nat, k: nat, m: nat): Read<i32>
    requires acc + ShiftLeft(m, k) < 0x8000_0000
  {
    Success(Parsed(acc + ShiftLeft(m, k), p + |EncodeVarInt(m)|))
  }

  ghost predicate ReadsEncoded(d: seq<byte>, p: nat, acc: nat, k: nat, m: nat)
    requires k < 5 && p <= |d|
  {
    && p + |EncodeVarInt(m)| <= |d|
    && acc + ShiftLeft(m, k) < 0x8000_0000
    && VarIntLoop(d, p, acc, k) == EncodedResult(p, acc, k, m)
  }

  lemma EncodedResultStep(p: nat, acc: nat, k: nat, m: nat)
    requires m >= 0x80 && acc + ShiftLeft(m, k) < 0x8000_0000
    ensures acc + ShiftLeft(m % 0x80, k) + ShiftLeft(m / 0x80, k + 1) < 0x8000_0000
    ensures EncodedResult(p + 1, acc + ShiftLeft(m % 0x80, k), k + 1, m / 0x80) == EncodedResult(p, acc, k, m)
  {
    ShiftSplit(acc, m, k);
  }

  lemma VarIntLoopEncodedMore(d: seq<byte>, p: nat, acc: nat, k: nat, m: nat)
    requires k < 4 && p < |d| && d[p] >= 0x80 && d[p] % 0x80 == m % 0x80
    requires m >= 0x80 && acc + ShiftLeft(m, k) < 0x8000_0000
    requires ReadsEncoded(d, p + 1, acc + ShiftLeft(m % 0x80, k), k + 1, m / 0x80)
    ensures ReadsEncoded(d, p, acc, k, m)
  {
    EncodedResultStep(p, acc, k, m);
    VarIntLoopContinue(d, p, acc, k, m % 0x80);
  }

  lemma {:induction false} VarIntLoopEncoded(d: seq<byte>, p: nat, acc: nat, k: nat, m: nat)
    requires k < 5 && acc + ShiftLeft(m, k) < 0x8000_0000
    requires p + |EncodeVarInt(m)| <= |d| && d[p..p + |EncodeVarInt(m)|] == EncodeVarInt(m)
    ensures ReadsEncoded(d, p, acc, k, m)
    decreases m
  {
    if m < 0x80 {
      VarIntLoopEncodedOne(d, p, acc, k, m);
    } else {
      NoSixthGroup(m, k);
      EncodedTail(d, p, m);
      ShiftSplit(acc, m, k);
      VarIntLoopEncoded(d, p + 1, acc + ShiftLeft(m % 0x80, k), k + 1, m / 0x80);
      VarIntLoopEncodedMore(d, p, acc, k, m);
    }
  }

  /** Varint round trip: every N in [0, 2^31 - 1], encoded and then read
      back, gives N, and the encoding has at most five bytes. */
  lemma VarIntRoundTrip(d: seq<byte>, p: nat, n: nat)
    requires n < 0x8000_0000
    requires p + |EncodeVarInt(n)| <= |d| && d[p..p + |EncodeVarInt(n)|] == EncodeVarInt(n)
    ensures ReadVarInt(d, p) == Success(Parsed(n as i32, p + |EncodeVarInt(n)|))
    ensures |EncodeVarInt(n)| <= 5
  {
    VarIntLoopEncoded(d, p, 0, 0, n);
    ReadVarIntSpec(d, p);
  }

  /** A text whose UTF-8 length fits the varint length prefix. */
  predicate Short(s: string) {
    |Utf8.Encode(s)| < 0x8000_0000
  }

  /** What `get_string` reads: the varint byte count of the UTF-8 text,
      then the text. */
  function EncodeString(s: string): seq<byte>
    requires Short(s)
  {
    EncodeVarInt(|Utf8.Encode(s)|) + Utf8.Encode(s)
  }

  lemma ReadStringOf(d: seq<byte>, p: nat, q: nat, u: seq<byte>, s: string)
    requires p <= |d| && q + |u| <= |d|
    requires ReadVarInt(d, p) == Success(Parsed(|u|, q))
    requires d[q..q + |u|] == u && Utf8.Decode(u) == Some(s)
    ensures ReadString(d, p) == Success(Parsed(s, q + |u|))
  {
  }

  /** Length-prefixed string round trip: `get_string` consumes exactly the
      length prefix and the bytes it counts, and returns the text. */
  lemma StringRoundTrip(d: seq<byte>, p: nat, s: string)
    requires Short(s)
    requires p + |EncodeString(s)| <= |d| && d[p..p + |EncodeString(s)|] == EncodeString(s)
    ensures ReadString(d, p) == Success(Parsed(s, p + |EncodeString(s)|))
  {
    var u := Utf8.Encode(s);
    var prefix := EncodeVarInt(|u|);
    var q := p + |prefix|;
    assert q + |u| == p + |EncodeString(s)| <= |d|;
    assert ReadVarInt(d, p) == Success(Parsed(|u|, q)) by {
      assert d[p..p + |prefix|] == d[p..p + |EncodeString(s)|][..|prefix|];
      VarIntRoundTrip(d, p, |u|);
    }
    assert d[q..q + |u|] == u by {
      assert d[q..q + |u|] == d[p..p + |EncodeString(s)|][|prefix|..];
    }
    assert Utf8.Decode(u) == Some(s) by {
      Utf8.DecodeEncode(s);
    }
    ReadStringOf(d, p, q, u, s);
  }

  // ---------------------------------------------------------------
  // The cursor
  // ---------------------------------------------------------------

  /** A method result `r` and the cursor position `pos` it left behind
      are what the read function `spec` gives. */
  predicate Agrees<T(==)>(spec: Read<T>, r: Result<T, DecodeError>, pos: nat) {
    && (spec.Success? ==> r == Success(spec.value.val) && pos == spec.value.next)
    && (spec.Failure? ==> r == Failure(spec.error))
  }

  /** An immutable buffer and a read position that only moves forward,
      the part of `bytes::Bytes` the decoder uses. */
  class Cursor {
    const data: seq<byte>
    var pos: nat

    ghost predicate Valid()
      reads this
    {
      pos <= |data|
    }

    constructor (data: seq<byte>)
      ensures Valid() && this.data == data && pos == 0
    {
      this.data := data;
      pos := 0;
    }

    method GetU8() returns (r: Result<byte, DecodeError>)
      requires Valid()
      modifies this
      ensures Valid() && Agrees(ReadU8(data, old(pos)), r, pos)
    {
      if pos + 1 > |data| {
        return Failure(BufferUnderrun);
      }
      r := Success(data[pos]);
      pos := pos + 1;
    }

    method GetI16Le() returns (r: Result<i16, DecodeError>)
      requires Valid()
      modifies this
      ensures Valid() && Agrees(ReadI16Le(data, old(pos)), r, pos)
    {
      if pos + 2 > |data| {
        return Failure(BufferUnderrun);
      }
      r := Success(Signed16(Le16(data[pos], data[pos + 1])));
      pos := pos + 2;
    }

    method GetI32Le() returns (r: Result<i32, DecodeError>)
      requires Valid()
      modifies this
      ensures Valid() && Agrees(ReadI32Le(data, old(pos)), r, pos)
    {
      if pos + 4 > |data| {
        return Failure(BufferUnderrun);
      }
      r := Success(Signed32(Le32(data[pos], data[pos + 1], data[pos + 2], data[pos + 3])));
      pos := pos + 4;
    }

    /** The f32 read of value tag 4, in the corrected (little-endian) order. */
    method GetF32Le() returns (r: Result<u32, DecodeError>)
      requires Valid()
      modifies this
      ensures Valid() && Agrees(ReadF32BitsLe(data, old(pos)), r, pos)
    {
      if pos + 4 > |data| {
        return Failure(BufferUnderrun);
      }
      r := Success(Le32(data[pos], data[pos + 1], data[pos + 2], data[pos + 3]));
      pos := pos + 4;
    }

    /** `get_var_int`: one byte per turn until the continuation bit is clear. */
    method GetVarInt() returns (r: Result<i32, DecodeError>)
      requires Valid()
      modifies this
      ensures Valid() && Agrees(ReadVarInt(data, old(pos)), r, pos)
    {
      var value := 0;
      var position := 0;
      ghost var k := 0;
      while true
        invariant Valid()
        invariant k < 5 && position == 7 * k
        invariant VarIntLoop(data, pos, value, k) == ReadVarInt(data, old(pos))
        decreases 5 - k
      {
        if pos < |data| {
          VarIntLoopTurn(data, pos, value, k);
        }
        var next := GetU8();
        match next {
          case Failure(e) => return Failure(e);
          case Success(b) =>
            value := value + ShiftLeft(b % 0x80, position / 7);
            if b < 0x80 {
              return Success(Signed32(value % TWO_32));
            }
            position := position + 7;
            k := k + 1;
            if position >= 32 {
              return Failure(VarIntTooLong);
            }
        }
      }
    }

    /** `get_string`: the length, then one byte pushed per turn, then UTF-8. */
    method GetString() returns (r: Result<string, DecodeError>)
      requires Valid()
      modifies this
      ensures Valid() && Agrees(ReadString(data, old(pos)), r, pos)
    {
      var len := GetVarInt();
      match len {
        case Failure(e) => return Failure(e);
        case Success(length) =>
          if length < 0 {
            return Failure(CapacityOverflow);
          }
          ghost var start := pos;
          var buf: seq<byte> := [];
          for i := 0 to length
            invariant Valid() && pos == start + i && buf == data[start..pos]
          {
            var next := GetU8();
            match next {
              case Failure(e) => return Failure(e);
              case Success(b) => buf := buf + [b];
            }
          }
          match Utf8.Decode(buf)
          case None => return Failure(InvalidUtf8);
          case Some(s) => return Success(s);
      }
    }
  }
}
