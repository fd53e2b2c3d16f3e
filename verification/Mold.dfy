/** The MoldUDP64 packet header, shared by data packets and requests. */
module Mold {
  import opened Machine
  import opened Wire
  import Itch
  import E = Encode

  const SESSION_LEN: nat := 10
  const HEADER_LEN: nat := SESSION_LEN + 8 + 2
  const HEARTBEAT: u16 := 0
  const END_OF_SESSION: u16 := 0xFFFF

  type SessionId = s: Bytes | |s| == SESSION_LEN witness [0, 0, 0, 0, 0, 0, 0, 0, 0, 0]

  datatype Header = Header(session: SessionId, seqNo: u64, count: u16)

  /** ASCII, left-justified, filled up with spaces; longer names are cut. */
  function MakeSession(name: Bytes): (id: SessionId)
    ensures |name| <= 10 ==> id[..|name|] == name
    ensures |name| > 10 ==> id == name[..10]
  {
    seq(10, i requires 0 <= i < 10 => if i < |name| then name[i] else Itch.SPACE)
  }

  /** The part of a name that fits. */
  function Cut(name: Bytes): (c: Bytes)
    ensures |c| <= 10
  {
    if |name| <= 10 then name else name[..10]
  }

  function Filled(c: Bytes): Bytes
    requires |c| <= 10
  {
    c + seq(10 - |c|, _ => Itch.SPACE)
  }

  lemma {:induction false} FillingIgnoresSpaces(c: Bytes)
    requires |c| <= 10
    ensures Filled(Itch.StripSpaces(c)) == Filled(c)
    decreases |c|
  {
    if c != [] && c[|c| - 1] == Itch.SPACE {
      FillingIgnoresSpaces(c[..|c| - 1]);
      assert Filled(c[..|c| - 1]) == Filled(c);
    }
  }

  /** Two names denote the same session if and only if they agree once cut to ten bytes
      and stripped of trailing spaces. */
  lemma SessionsCoincideIff(a: Bytes, b: Bytes)
    ensures MakeSession(a) == MakeSession(b) <==> Itch.StripSpaces(Cut(a)) == Itch.StripSpaces(Cut(b))
  {
    SessionIsFilled(a);
    SessionIsFilled(b);
  }

  /** A session and the stripped name determine each other. */
  lemma SessionIsFilled(name: Bytes)
    ensures Itch.StripSpaces(MakeSession(name)) == Itch.StripSpaces(Cut(name))
    ensures |Itch.StripSpaces(Cut(name))| <= 10 && MakeSession(name) == Filled(Itch.StripSpaces(Cut(name)))
  {
    var c := Cut(name);
    assert MakeSession(name) == Filled(c);
    E.StripFilled(c, 10 - |c|);
    FillingIgnoresSpaces(c);
  }

  function HeaderBytes(h: Header): (b: Bytes)
    ensures |b| == HEADER_LEN
  {
    h.session + BigEndian(h.seqNo, 8) + BigEndian(h.count, 2)
  }

  method Encode(v: Bytes, h: Header) returns (out: Bytes)
    ensures out == v + HeaderBytes(h)
  {
    out := PutBe(v + h.session, h.seqNo, 8);
    out := PutBe(out, h.count, 2);
  }

  function Decode(p: Bytes): Header
    requires |p| >= HEADER_LEN
  {
    Header(p[..10], Be64(p, 10), Be16(p, 18))
  }

  /** `get_be64`: shift the accumulator left and put the next byte in. */
  method GetBe64(p: Bytes, at: nat) returns (v: u64)
    requires at + 8 <= |p|
    ensures v == Be64(p, at)
  {
    var acc: int, i := 0, 0;
    while i < 8
      invariant 0 <= i <= 8
      invariant acc == Value(p[at..at + i])
    {
      ValueSlice(p, at, at + i + 1);
      acc := acc * 256 + (p[at + i] as int);
      i := i + 1;
    }
    ValueBound(p[at..at + 8]);
    Powers();
    v := acc;
  }

  /** A header is read back whole, whatever follows it. */
  lemma HeaderRoundTrip(h: Header, payload: Bytes)
    ensures Decode(HeaderBytes(h) + payload) == h
    ensures (HeaderBytes(h) + payload)[HEADER_LEN..] == payload
  {
    var p := HeaderBytes(h) + payload;
    assert p[..10] == h.session && p[10..18] == BigEndian(h.seqNo, 8) && p[18..20] == BigEndian(h.count, 2);
    DecodedU64(p, 10, h.seqNo);
    DecodedU16(p, 18, h.count);
  }
}
