/** The wire format byte by byte: which numbers sit where in each frame and header, and the
    walk over a buffer undone. */
module FrameFormats {
  import opened Machine
  import opened Arith
  import opened Wire
  import opened BookSpec
  import opened Itch
  import opened Encode
  import M = Mold

  function Num16(p: Bytes, i: nat): nat
    requires i + 2 <= |p|
  {
    (p[i] as int) * 0x100 + p[i + 1]
  }

  function Num32(p: Bytes, i: nat): nat
    requires i + 4 <= |p|
  {
    Num16(p, i) * 0x1_0000 + Num16(p, i + 2)
  }

  function Num48(p: Bytes, i: nat): nat
    requires i + 6 <= |p|
  {
    Num16(p, i) * 0x1_0000_0000 + Num32(p, i + 2)
  }

  function Num64(p: Bytes, i: nat): nat
    requires i + 8 <= |p|
  {
    Num32(p, i) * 0x1_0000_0000 + Num32(p, i + 4)
  }

  lemma Reads32(p: Bytes, i: nat)
    requires i + 4 <= |p|
    ensures Be16(p, i) == Num16(p, i) && Be32(p, i) == Num32(p, i)
  {
    ShiftedBytes(p, i);
  }

  lemma Reads16(p: Bytes, i: nat)
    requires i + 2 <= |p|
    ensures Be16(p, i) == Num16(p, i)
  {
    assert p[i..i] == [];
    ValueSlice(p, i, i + 1);
    ValueSlice(p, i, i + 2);
  }

  lemma Reads64(p: Bytes, i: nat)
    requires i + 8 <= |p|
    ensures Be48(p, i) == Num48(p, i) && Be64(p, i) == Num64(p, i)
  {
    ShiftedHalves(p, i);
    Reads32(p, i);
    Reads32(p, i + 2);
    Reads32(p, i + 4);
  }

  // ---------------------------------------------------------------- the ticker

  /** Byte i of the nine-byte ticker: the field's, unless only spaces follow from there on. */
  ghost predicate IsTicker(t: Bytes, src: Bytes)
    requires |src| == 8
  {
    && |t| == 9 && t[8] == 0
    && forall i | 0 <= i < 8 :: t[i] == if AllSpaces(src[i..]) then 0 else src[i]
  }

  predicate AllSpaces(s: Bytes) {
    forall j | 0 <= j < |s| :: s[j] == 0x20
  }

  lemma {:induction false} StripEnds(s: Bytes)
    ensures var k := |StripSpaces(s)|;
            && StripSpaces(s) == s[..k] && AllSpaces(s[k..])
            && forall i | 0 <= i < k :: !AllSpaces(s[i..])
    decreases |s|
  {
    var k := |StripSpaces(s)|;
    if s != [] && s[|s| - 1] == SPACE {
      var t := s[..|s| - 1];
      StripEnds(t);
      assert s[k..] == t[k..] + [SPACE];
      forall i | 0 <= i < k
        ensures !AllSpaces(s[i..])
      {
        var j :| 0 <= j < |t[i..]| && t[i..][j] != 0x20;
        assert s[i..][j] == t[i..][j];
      }
    } else {
      forall i | 0 <= i < k
        ensures !AllSpaces(s[i..])
      {
        assert s[i..][|s| - 1 - i] == s[|s| - 1];
      }
    }
  }

  lemma TrimmedIsTicker(src: Bytes)
    requires |src| == 8
    ensures IsTicker(Trimmed(src), src)
  {
    var k := |StripSpaces(src)|;
    StripEnds(src);
    forall i | k <= i < 8
      ensures AllSpaces(src[i..])
    {
      assert src[i..] == src[k..][i - k..];
    }
  }

  // ---------------------------------------------------------------- the seven frames

  function HeaderAt(p: Bytes): Header
    requires |p| >= 11
  {
    Reads16(p, 1);
    Reads48(p, 5);
    Header(Num16(p, 1), Num48(p, 5))
  }

  lemma Reads48(p: Bytes, i: nat)
    requires i + 6 <= |p|
    ensures Be48(p, i) == Num48(p, i)
  {
    Reads32(p, i + 2);
    assert p[i..i] == [];
    ValueSlice(p, i, i + 1);
    ValueSlice(p, i, i + 2);
    ValueSlice(p, i, i + 3);
    ValueSlice(p, i, i + 4);
    ValueSlice(p, i, i + 5);
    ValueSlice(p, i, i + 6);
    ShiftedBytes(p, i);
    ShiftedBytes(p, i + 2);
  }

  /** 'A' in 36 bytes and 'F' in 40. */
  ghost predicate SaysAdd(p: Bytes, c: Call)
    requires |p| >= 36
  {
    && c.On? && c.m.AddOrder? && c.m.hdr == HeaderAt(p)
    && c.m.ref == Num64(p, 11) && c.m.side.code == p[19] && c.m.shares == Num32(p, 20)
    && IsTicker(c.m.stock, p[24..32]) && c.m.price == Num32(p, 32)
  }

  lemma AddFrames(p: Bytes)
    requires (|p| == 36 && p[0] == 0x41) || (|p| == 40 && p[0] == 0x46)
    ensures SaysAdd(p, Dispatch(p))
  {
    Reads48(p, 5);
    Reads16(p, 1);
    Reads64(p, 11);
    Reads32(p, 20);
    Reads32(p, 32);
    TrimmedIsTicker(p[24..32]);
  }

  /** 'E' in 31 bytes. */
  lemma ExecutedFrame(p: Bytes)
    requires |p| == 31 && p[0] == 0x45
    ensures var c := Dispatch(p);
            && c.On? && c.m.OrderExecuted? && c.m.hdr == HeaderAt(p)
            && c.m.ref == Num64(p, 11) && c.m.shares == Num32(p, 19) && c.m.matchNo == Num64(p, 23)
  {
    Reads48(p, 5);
    Reads16(p, 1);
    Reads64(p, 11);
    Reads32(p, 19);
    Reads64(p, 23);
  }

  /** 'C' in 36 bytes; printable exactly when byte 31 is 'Y'. */
  lemma ExecutedPriceFrame(p: Bytes)
    requires |p| == 36 && p[0] == 0x43
    ensures var c := Dispatch(p);
            && c.On? && c.m.OrderExecutedPrice? && c.m.hdr == HeaderAt(p)
            && c.m.ref == Num64(p, 11) && c.m.shares == Num32(p, 19) && c.m.matchNo == Num64(p, 23)
            && c.m.printable == (p[31] == 0x59) && c.m.price == Num32(p, 32)
  {
    Reads48(p, 5);
    Reads16(p, 1);
    Reads64(p, 11);
    Reads32(p, 19);
    Reads64(p, 23);
    Reads32(p, 32);
  }

  /** 'X' in 23 bytes and 'D' in 19. */
  lemma CancelAndDeleteFrames(p: Bytes)
    requires (|p| == 23 && p[0] == 0x58) || (|p| == 19 && p[0] == 0x44)
    ensures var c := Dispatch(p);
            && c.On? && c.m.hdr == HeaderAt(p) && (|p| == 23 <==> c.m.OrderCancel?) && (|p| == 19 <==> c.m.OrderDelete?)
            && c.m.ref == Num64(p, 11) && (|p| == 23 ==> c.m.canceled == Num32(p, 19))
  {
    Reads48(p, 5);
    Reads16(p, 1);
    Reads64(p, 11);
    if |p| == 23 {
      Reads32(p, 19);
    }
  }

  /** 'U' in 35 bytes: the original reference first, then the new one. */
  lemma ReplaceFrame(p: Bytes)
    requires |p| == 35 && p[0] == 0x55
    ensures var c := Dispatch(p);
            && c.On? && c.m.OrderReplace? && c.m.hdr == HeaderAt(p)
            && c.m.origRef == Num64(p, 11) && c.m.newRef == Num64(p, 19)
            && c.m.shares == Num32(p, 27) && c.m.price == Num32(p, 31)
  {
    Reads48(p, 5);
    Reads16(p, 1);
    Reads64(p, 11);
    Reads64(p, 19);
    Reads32(p, 27);
    Reads32(p, 31);
  }

  /** Type byte and length of the frames that are decoded. */
  predicate Decoded(p: Bytes)
    requires p != []
  {
    (p[0], |p|) in {(0x41, 36), (0x46, 40), (0x45, 31), (0x43, 36), (0x58, 23), (0x44, 19), (0x55, 35)}
  }

  /** Everything else is skipped, with its type byte and length. */
  lemma OtherFrames(p: Bytes)
    requires p != []
    ensures Dispatch(p) == OnOther(p[0], |p|) <==> !Decoded(p)
  {
  }

  /** Two bytes no field of an encoded message is written to, and the byte for "not printable". */
  lemma EncodedConstants(m: Message)
    ensures var p := Encoding(m);
            |p| >= 19 && p[3..5] == [0, 0] && (m.OrderExecutedPrice? && !m.printable ==> |p| == 36 && p[31] == 0x4E)
  {
    var p := Encoding(m);
    EncodingIsWired(m);
    HeaderLayoutOf(p, m);
    if m.OrderExecutedPrice? && !m.printable {
      assert p[31] == p[31..32][0];
    }
  }

  lemma HeaderLayoutOf(p: Bytes, m: Message)
    requires Wired(p, m)
    ensures |p| >= 19 && p[3..5] == [0, 0]
  {
    var kind: u8 := p[..11][0];
    assert p[..11] == HeaderBytes(kind, m.hdr);
    var h := HeaderBytes(kind, m.hdr);
    assert h[3..5] == BigEndian(0, 2);
    assert p[3..5] == h[3..5];
    ZeroBytes();
  }

  lemma ZeroBytes()
    ensures BigEndian(0, 2) == [0, 0]
  {
    assert ShiftRight(0, 1) == ShiftRight(0, 0) / 256;
  }

  // ---------------------------------------------------------------- the walk

  /** Where the first frame ends: two bytes of length, which is neither 0 nor more than
      what follows. */
  lemma FirstFrameIs(data: Bytes)
    ensures FirstFrame(data)
         == if |data| >= 2 && 1 <= Num16(data, 0) <= |data| - 2 then Some(2 + Num16(data, 0)) else None
  {
    if |data| >= 2 {
      Reads16(data, 0);
    }
  }

  lemma {:induction false} BigEndianOfValue(b: Bytes)
    ensures BigEndian(Value(b), |b|) == b
    decreases |b|
  {
    if b != [] {
      var n := |b| - 1;
      BigEndianOfValue(b[..n]);
      HighBytes(Value(b), |b|);
      QuotientUnique(Value(b), 256, Value(b[..n]), b[n]);
      assert BigEndian(Value(b), |b|) == BigEndian(Value(b), |b|)[..n] + [BigEndian(Value(b), |b|)[n]];
    }
  }

  lemma FrontIsFramed(data: Bytes, n: nat)
    requires FirstFrame(data) == Some(n)
    ensures data[..n] == Framed(data[2..n])
  {
    BigEndianOfValue(data[0..2]);
    assert data[..n] == data[0..2] + data[2..n];
  }

  /** The walk undone: framing the frames again gives the bytes they occupied, so nothing in
      front of the leftover is skipped or read twice. */
  lemma {:induction false} ReframedIsConsumed(data: Bytes)
    ensures Concatenated(Frames(data)) == data[..Consumed(data)]
    decreases |data|
  {
    match FirstFrame(data) {
      case None =>
      case Some(n) =>
        OneFrame(data, n);
        ReframedIsConsumed(data[n..]);
        FrontIsFramed(data, n);
        var fs := Frames(data);
        assert fs[0] == data[2..n] && fs[1..] == Frames(data[n..]);
        assert data[..Consumed(data)] == data[..n] + data[n..][..Consumed(data[n..])];
    }
  }

  // ---------------------------------------------------------------- the session header

  /** Ten bytes of session, eight of sequence number, two of count; the two counts that are
      none. */
  lemma HeaderSays(p: Bytes)
    requires |p| >= 20
    ensures M.HEADER_LEN == 20 && M.HEARTBEAT == 0 && M.END_OF_SESSION == 0xFFFF
    ensures var h := M.Decode(p); h.session == p[..10] && h.seqNo == Num64(p, 10) && h.count == Num16(p, 18)
  {
    Reads64(p, 10);
    Reads16(p, 18);
  }

  /** A session name is filled up with 0x20, or cut, to ten bytes. */
  lemma SessionBytes(name: Bytes, i: nat)
    requires i < 10
    ensures M.MakeSession(name)[i] == if i < |name| then name[i] else 0x20
  {
  }
}
