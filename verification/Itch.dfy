/** ITCH 5.0 messages, the decoder of one frame, and the walk over a framed buffer. */
module Itch {
  import opened Machine
  import opened Wire
  import opened BookSpec
  import opened Seqs

  datatype Header = Header(locate: u16, timestamp: u64)

  datatype Message =
    | AddOrder(hdr: Header, ref: Ref, side: Side, shares: u32, stock: Bytes, price: u32)
    | OrderExecuted(hdr: Header, ref: Ref, shares: u32, matchNo: u64)
    | OrderExecutedPrice(hdr: Header, ref: Ref, shares: u32, matchNo: u64, printable: bool, price: u32)
    | OrderCancel(hdr: Header, ref: Ref, canceled: u32)
    | OrderDelete(hdr: Header, ref: Ref)
    | OrderReplace(hdr: Header, origRef: Ref, newRef: Ref, shares: u32, price: u32)

  /** One call on a handler: a decoded message, or `on_other`. */
  datatype Call = On(m: Message) | OnOther(kind: u8, len: nat)

  const A: u8 := 0x41
  const F: u8 := 0x46
  const E: u8 := 0x45
  const C: u8 := 0x43
  const X: u8 := 0x58
  const D: u8 := 0x44
  const U: u8 := 0x55

  function WireSize(kind: u8): Option<nat> {
    if kind == A then Some(36)
    else if kind == F then Some(40)
    else if kind == E then Some(31)
    else if kind == C then Some(36)
    else if kind == X then Some(23)
    else if kind == D then Some(19)
    else if kind == U then Some(35)
    else None
  }

  // ---------------------------------------------------------------- stock field

  const SPACE: u8 := 0x20

  function Zeros(n: nat): (z: Bytes)
    ensures |z| == n
  {
    seq(n, _ => 0)
  }

  function StripSpaces(s: Bytes): (r: Bytes)
    ensures |r| <= |s|
  {
    if s == [] || s[|s| - 1] != SPACE then s else StripSpaces(s[..|s| - 1])
  }

  /** `char stock[9]`: the field without trailing spaces, filled up with NUL. */
  function Trimmed(src: Bytes): Bytes
    requires |src| == 8
  {
    StripSpaces(src) + Zeros(9 - |StripSpaces(src)|)
  }

  /** Blanks trailing spaces from the back, one at a time. */
  method CopyStock(src: Bytes) returns (dst: Bytes)
    requires |src| == 8
    ensures dst == Trimmed(src)
  {
    dst := src + [0];
    var i := 7;
    assert src[..8] == src;
    while i >= 0 && dst[i] == SPACE
      invariant -1 <= i <= 7
      invariant dst == src[..i + 1] + Zeros(8 - i)
      invariant StripSpaces(src) == StripSpaces(src[..i + 1])
      decreases i
    {
      assert src[..i + 1][..i] == src[..i];
      dst := dst[i := 0];
      i := i - 1;
    }
  }

  // ---------------------------------------------------------------- one frame

  function HeaderOf(p: Bytes): Header
    requires |p| >= 11
  {
    Header(Be16(p, 1), Be48(p, 5))
  }

  /** Decodes one frame. A type that is not decoded, or whose length is not the
      specified one, goes to `on_other`. */
  function Dispatch(p: Bytes): Call
    requires p != []
  {
    var kind := p[0];
    if WireSize(kind) != Some(|p|) then OnOther(kind, |p|)
    else if kind == A || kind == F then
      On(AddOrder(HeaderOf(p), Be64(p, 11), Side(p[19]), Be32(p, 20), Trimmed(p[24..32]), Be32(p, 32)))
    else if kind == E then
      On(OrderExecuted(HeaderOf(p), Be64(p, 11), Be32(p, 19), Be64(p, 23)))
    else if kind == C then
      On(OrderExecutedPrice(HeaderOf(p), Be64(p, 11), Be32(p, 19), Be64(p, 23), p[31] == 0x59, Be32(p, 32)))
    else if kind == X then On(OrderCancel(HeaderOf(p), Be64(p, 11), Be32(p, 19)))
    else if kind == D then On(OrderDelete(HeaderOf(p), Be64(p, 11)))
    else On(OrderReplace(HeaderOf(p), Be64(p, 11), Be64(p, 19), Be32(p, 27), Be32(p, 31)))
  }

  // ---------------------------------------------------------------- the walk

  /** Length of the frame at the front, prefix included; None ends the walk: no whole
      prefix, a zero length, or a payload that is cut short. */
  function FirstFrame(data: Bytes): (n: Option<nat>)
    ensures n.Some? ==> 2 < n.value <= |data|
  {
    if |data| < 2 then None
    else
      var mlen := Be16(data, 0);
      if mlen == 0 || 2 + mlen > |data| then None else Some(2 + mlen)
  }

  /** Payloads of the complete frames at the front of a buffer. */
  function Frames(data: Bytes): (fs: seq<Bytes>)
    ensures forall i | 0 <= i < |fs| :: 0 < |fs[i]| < 0x1_0000
    decreases |data|
  {
    match FirstFrame(data)
    case None => []
    case Some(n) => [data[2..n]] + Frames(data[n..])
  }

  /** Bytes those frames occupy. */
  function Consumed(data: Bytes): (n: nat)
    ensures n <= |data|
    decreases |data|
  {
    match FirstFrame(data)
    case None => 0
    case Some(n) => n + Consumed(data[n..])
  }

  function Dispatched(fs: seq<Bytes>): (calls: seq<Call>)
    requires forall i | 0 <= i < |fs| :: fs[i] != []
    ensures |calls| == |fs|
  {
    seq(|fs|, i requires 0 <= i < |fs| => Dispatch(fs[i]))
  }

  /** The handler calls one buffer gives rise to. */
  function Calls(data: Bytes): seq<Call> {
    Dispatched(Frames(data))
  }

  lemma DispatchedConcat(a: seq<Bytes>, b: seq<Bytes>)
    requires forall i | 0 <= i < |a| :: a[i] != []
    requires forall i | 0 <= i < |b| :: b[i] != []
    ensures Dispatched(a + b) == Dispatched(a) + Dispatched(b)
  {
  }

  /** `parse_stream`: the count it returns and the calls it makes. */
  method ParseStream(data: Bytes) returns (count: nat, calls: seq<Call>)
    ensures calls == Calls(data) && count == |Frames(data)|
  {
    count, calls := 0, [];
    var off := 0;
    while off + 2 <= |data|
      invariant 0 <= off <= |data|
      invariant count == |calls|
      invariant calls + Calls(data[off..]) == Calls(data)
      decreases |data| - off
    {
      var mlen: int := Be16(data, off);
      assert data[off..][0..2] == data[off..off + 2];
      if mlen == 0 || off + 2 + mlen > |data| {
        break;
      }
      CallsAt(data, off, 2 + mlen);
      var call := Dispatch(data[off + 2..off + 2 + mlen]);
      Regroup(calls, [call], Calls(data[off + 2 + mlen..]));
      calls := calls + [call];
      off := off + 2 + mlen;
      count := count + 1;
    }
    assert FirstFrame(data[off..]).None?;
  }

  lemma CallsAt(data: Bytes, off: nat, n: nat)
    requires off <= |data| && FirstFrame(data[off..]) == Some(n)
    ensures off + n <= |data| && n > 2
    ensures Calls(data[off..]) == [Dispatch(data[off + 2..off + n])] + Calls(data[off + n..])
  {
    var rest := data[off..];
    assert rest[2..n] == data[off + 2..off + n] && rest[n..] == data[off + n..];
    OneFrame(rest, n);
    DispatchedConcat([rest[2..n]], Frames(rest[n..]));
  }

  // ---------------------------------------------------------------- laws of the walk

  /** More bytes do not disturb a complete front frame. */
  lemma FirstFrameStable(a: Bytes, b: Bytes)
    requires FirstFrame(a).Some?
    ensures FirstFrame(a + b) == FirstFrame(a)
  {
    assert (a + b)[0..2] == a[0..2];
  }

  lemma WalkStep(a: Bytes, b: Bytes, n: nat)
    requires FirstFrame(a) == Some(n)
    ensures Frames(a + b) == [a[2..n]] + Frames(a[n..] + b)
    ensures Consumed(a + b) == n + Consumed(a[n..] + b)
  {
    FirstFrameStable(a, b);
    assert (a + b)[2..n] == a[2..n];
    assert (a + b)[n..] == a[n..] + b;
  }

  function Leftover(a: Bytes): Bytes {
    a[Consumed(a)..]
  }

  lemma OneFrame(a: Bytes, n: nat)
    requires FirstFrame(a) == Some(n)
    ensures Frames(a) == [a[2..n]] + Frames(a[n..])
    ensures Consumed(a) == n + Consumed(a[n..])
    ensures Leftover(a) == Leftover(a[n..])
  {
  }

  lemma NoFrame(a: Bytes)
    requires FirstFrame(a).None?
    ensures Frames(a) == [] && Consumed(a) == 0 && Leftover(a) == a
  {
  }

  /** Cutting a buffer anywhere: the frames complete before the cut, then the frames of
      what the walk left over followed by the rest. */
  lemma {:induction false} WalkSplits(a: Bytes, b: Bytes)
    ensures Frames(a + b) == Frames(a) + Frames(Leftover(a) + b)
    ensures Consumed(a + b) == Consumed(a) + Consumed(Leftover(a) + b)
    decreases |a|
  {
    match FirstFrame(a) {
      case None =>
        NoFrame(a);
      case Some(n) =>
        var r := a[n..];
        OneFrame(a, n);
        WalkStep(a, b, n);
        WalkSplits(r, b);
        Regroup([a[2..n]], Frames(r), Frames(Leftover(r) + b));
    }
  }

  /** What the walk leaves over holds no complete frame. */
  lemma {:induction false} LeftoverHasNoFrame(a: Bytes)
    ensures FirstFrame(Leftover(a)).None?
    decreases |a|
  {
    match FirstFrame(a) {
      case None =>
        assert Leftover(a) == a;
      case Some(n) =>
        OneFrame(a, n);
        LeftoverHasNoFrame(a[n..]);
    }
  }

  /** The consumed prefix parses to the same frames, all of it. */
  lemma {:induction false} ConsumedPrefix(a: Bytes)
    ensures Frames(a[..Consumed(a)]) == Frames(a) && Consumed(a[..Consumed(a)]) == Consumed(a)
    decreases |a|
  {
    if FirstFrame(a).Some? {
      var n := FirstFrame(a).value;
      var p := a[..Consumed(a)];
      ConsumedPrefix(a[n..]);
      assert p[0..2] == a[0..2];
      assert p[2..n] == a[2..n];
      assert p[n..] == a[n..][..Consumed(a[n..])];
    }
  }
}
