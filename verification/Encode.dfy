/** Encoders, the mirror image of the decoder, and the round trip. */
module Encode {
  import opened Machine
  import opened Wire
  import opened Itch
  import opened Seqs

  // ---------------------------------------------------------------- what an encoder writes

  /** Eight bytes: the ticker cut to eight, filled up with spaces. */
  function Stock8(s: Bytes): (r: Bytes)
    ensures |r| == 8
  {
    seq(8, i requires 0 <= i < 8 => if i < |s| then s[i] else SPACE)
  }

  function HeaderBytes(kind: u8, h: Header): (r: Bytes)
    ensures |r| == 11
  {
    [kind] + BigEndian(h.locate, 2) + BigEndian(0, 2) + BigEndian(h.timestamp, 6)
  }

  /** The wire form of a message; the stock of an add order is the ticker passed in. */
  function Encoding(m: Message): (r: Bytes)
    ensures 0 < |r| < 0x1_0000
  {
    match m
    case AddOrder(h, ref, side, shares, stock, price) =>
      HeaderBytes(A, h) + BigEndian(ref, 8) + [side.code] + BigEndian(shares, 4) + Stock8(stock) + BigEndian(price, 4)
    case OrderExecuted(h, ref, shares, matchNo) =>
      HeaderBytes(E, h) + BigEndian(ref, 8) + BigEndian(shares, 4) + BigEndian(matchNo, 8)
    case OrderExecutedPrice(h, ref, shares, matchNo, printable, price) =>
      HeaderBytes(C, h) + BigEndian(ref, 8) + BigEndian(shares, 4) + BigEndian(matchNo, 8)
      + [if printable then 0x59 else 0x4E] + BigEndian(price, 4)
    case OrderCancel(h, ref, canceled) => HeaderBytes(X, h) + BigEndian(ref, 8) + BigEndian(canceled, 4)
    case OrderDelete(h, ref) => HeaderBytes(D, h) + BigEndian(ref, 8)
    case OrderReplace(h, orig, next, shares, price) =>
      HeaderBytes(U, h) + BigEndian(orig, 8) + BigEndian(next, 8) + BigEndian(shares, 4) + BigEndian(price, 4)
  }

  // ---------------------------------------------------------------- the encoders

  method PutStock8(v: Bytes, s: Bytes) returns (out: Bytes)
    ensures out == v + Stock8(s)
  {
    out := v;
    var i := 0;
    while i < 8
      invariant 0 <= i <= 8
      invariant out == v + Stock8(s)[..i]
    {
      out := out + [if i < |s| then s[i] else SPACE];
      i := i + 1;
    }
  }

  method PutHeader(kind: u8, h: Header) returns (out: Bytes)
    ensures out == HeaderBytes(kind, h)
  {
    out := PutBe([kind], h.locate, 2);
    out := PutBe(out, 0, 2);
    out := PutBe(out, h.timestamp, 6);
  }

  method Encoded(m: Message) returns (v: Bytes)
    ensures v == Encoding(m)
  {
    match m {
      case AddOrder(h, ref, side, shares, stock, price) =>
        v := PutHeader(A, h);
        v := PutBe(v, ref, 8);
        v := v + [side.code];
        v := PutBe(v, shares, 4);
        v := PutStock8(v, stock);
        v := PutBe(v, price, 4);
      case OrderExecuted(h, ref, shares, matchNo) =>
        v := PutHeader(E, h);
        v := PutBe(v, ref, 8);
        v := PutBe(v, shares, 4);
        v := PutBe(v, matchNo, 8);
      case OrderExecutedPrice(h, ref, shares, matchNo, printable, price) =>
        v := PutHeader(C, h);
        v := PutBe(v, ref, 8);
        v := PutBe(v, shares, 4);
        v := PutBe(v, matchNo, 8);
        v := v + [if printable then 0x59 else 0x4E];
        v := PutBe(v, price, 4);
      case OrderCancel(h, ref, canceled) =>
        v := PutHeader(X, h);
        v := PutBe(v, ref, 8);
        v := PutBe(v, canceled, 4);
      case OrderDelete(h, ref) =>
        v := PutHeader(D, h);
        v := PutBe(v, ref, 8);
      case OrderReplace(h, orig, next, shares, price) =>
        v := PutHeader(U, h);
        v := PutBe(v, orig, 8);
        v := PutBe(v, next, 8);
        v := PutBe(v, shares, 4);
        v := PutBe(v, price, 4);
    }
  }

  /** One payload behind its length prefix (cut to 16 bits, as the cast does). */
  function Framed(m: Bytes): Bytes {
    BigEndian(|m|, 2) + m
  }

  function Concatenated(ms: seq<Bytes>): Bytes {
    if ms == [] then [] else Framed(ms[0]) + Concatenated(ms[1..])
  }

  method Frame(v: Bytes, m: Bytes) returns (out: Bytes)
    ensures out == v + Framed(m)
  {
    out := PutBe(v, |m|, 2);
    Regroup(v, BigEndian(|m|, 2), m);
    out := out + m;
  }

  method Stream(ms: seq<Bytes>) returns (out: Bytes)
    ensures out == Concatenated(ms)
  {
    out := [];
    var i := 0;
    while i < |ms|
      invariant 0 <= i <= |ms|
      invariant out + Concatenated(ms[i..]) == Concatenated(ms)
    {
      assert ms[i..][1..] == ms[i + 1..];
      Regroup(out, Framed(ms[i]), Concatenated(ms[i + 1..]));
      out := Frame(out, ms[i]);
      i := i + 1;
    }
  }

  // ---------------------------------------------------------------- one message round trip

  const TWO_48: int := 0x1_0000_0000_0000

  /** What the decoder reports of an encoded message: the timestamp keeps 48 bits, the
      ticker is cut to eight bytes and loses trailing spaces. */
  function Reported(m: Message): Message {
    var h := m.hdr.(timestamp := m.hdr.timestamp % TWO_48);
    match m
    case AddOrder(_, ref, side, shares, stock, price) =>
      AddOrder(h, ref, side, shares, Trimmed(Stock8(stock)), price)
    case _ => m.(hdr := h)
  }

  lemma HeaderRoundTrip(p: Bytes, kind: u8, h: Header)
    requires |p| >= 11 && p[..11] == HeaderBytes(kind, h)
    ensures p[0] == kind && HeaderOf(p) == h.(timestamp := h.timestamp % TWO_48)
  {
    var q := p[..11];
    HeaderLayout([kind], BigEndian(h.locate, 2), BigEndian(0, 2), BigEndian(h.timestamp, 6));
    assert p[0] == q[0] && p[1..3] == q[1..3] && p[5..11] == q[5..11];
    DecodedU16(p, 1, h.locate);
    DecodedField(p, 5, h.timestamp, 6);
  }

  lemma HeaderLayout(a: Bytes, b: Bytes, c: Bytes, d: Bytes)
    requires |a| == 1 && |b| == 2 && |c| == 2 && |d| == 6
    ensures (a + b + c + d)[0] == a[0] && (a + b + c + d)[1..3] == b && (a + b + c + d)[5..11] == d
  {
  }

  /** Where the parts of a concatenation sit. */
  lemma Layout(a: Bytes, b: Bytes, c: Bytes, d: Bytes, e: Bytes, f: Bytes)
    ensures var p := a + b + c + d + e + f;
            var i, j, k, l := |a|, |a| + |b|, |a| + |b| + |c|, |a| + |b| + |c| + |d|;
            && p[..i] == a && p[i..j] == b && p[j..k] == c && p[k..l] == d
            && p[l..l + |e|] == e && p[l + |e|..l + |e| + |f|] == f
  {
  }

  /** The encoders' layout: which bytes each field was written to. */
  predicate Wired(p: Bytes, m: Message) {
    match m
    case AddOrder(h, ref, side, shares, stock, price) =>
      |p| == 36 && p[..11] == HeaderBytes(A, h) && p[11..19] == BigEndian(ref, 8) && p[19..20] == [side.code]
      && p[20..24] == BigEndian(shares, 4) && p[24..32] == Stock8(stock) && p[32..36] == BigEndian(price, 4)
    case OrderExecuted(h, ref, shares, matchNo) =>
      |p| == 31 && p[..11] == HeaderBytes(E, h) && p[11..19] == BigEndian(ref, 8)
      && p[19..23] == BigEndian(shares, 4) && p[23..31] == BigEndian(matchNo, 8)
    case OrderExecutedPrice(h, ref, shares, matchNo, printable, price) =>
      |p| == 36 && p[..11] == HeaderBytes(C, h) && p[11..19] == BigEndian(ref, 8)
      && p[19..23] == BigEndian(shares, 4) && p[23..31] == BigEndian(matchNo, 8)
      && p[31..32] == [if printable then 0x59 else 0x4E] && p[32..36] == BigEndian(price, 4)
    case OrderCancel(h, ref, canceled) =>
      |p| == 23 && p[..11] == HeaderBytes(X, h) && p[11..19] == BigEndian(ref, 8) && p[19..23] == BigEndian(canceled, 4)
    case OrderDelete(h, ref) =>
      |p| == 19 && p[..11] == HeaderBytes(D, h) && p[11..19] == BigEndian(ref, 8)
    case OrderReplace(h, orig, next, shares, price) =>
      |p| == 35 && p[..11] == HeaderBytes(U, h) && p[11..19] == BigEndian(orig, 8) && p[19..27] == BigEndian(next, 8)
      && p[27..31] == BigEndian(shares, 4) && p[31..35] == BigEndian(price, 4)
  }

  lemma EncodingIsWired(m: Message)
    ensures Wired(Encoding(m), m)
  {
    var p := Encoding(m);
    assert p + [] == p && p + [] + [] == p;
    match m
    case AddOrder(h, ref, side, shares, stock, price) =>
      Layout(HeaderBytes(A, h), BigEndian(ref, 8), [side.code], BigEndian(shares, 4), Stock8(stock),
             BigEndian(price, 4));
    case OrderExecuted(h, ref, shares, matchNo) =>
      Layout(HeaderBytes(E, h), BigEndian(ref, 8), BigEndian(shares, 4), BigEndian(matchNo, 8), [], []);
    case OrderExecutedPrice(h, ref, shares, matchNo, printable, price) =>
      Layout(HeaderBytes(C, h), BigEndian(ref, 8), BigEndian(shares, 4), BigEndian(matchNo, 8),
             [if printable then 0x59 else 0x4E], BigEndian(price, 4));
    case OrderCancel(h, ref, canceled) =>
      Layout(HeaderBytes(X, h), BigEndian(ref, 8), BigEndian(canceled, 4), [], [], []);
      assert p + [] + [] + [] == p;
    case OrderDelete(h, ref) =>
      Layout(HeaderBytes(D, h), BigEndian(ref, 8), [], [], [], []);
      assert p + [] + [] + [] + [] == p;
    case OrderReplace(h, orig, next, shares, price) =>
      Layout(HeaderBytes(U, h), BigEndian(orig, 8), BigEndian(next, 8), BigEndian(shares, 4), BigEndian(price, 4), []);
  }

  lemma WiredAdd(p: Bytes, m: Message)
    requires m.AddOrder? && Wired(p, m)
    ensures Dispatch(p) == On(Reported(m))
  {
    HeaderRoundTrip(p, A, m.hdr);
    DecodedU64(p, 11, m.ref);
    DecodedU32(p, 20, m.shares);
    DecodedU32(p, 32, m.price);
    assert p[19] == p[19..20][0];
  }

  lemma WiredExecuted(p: Bytes, m: Message)
    requires m.OrderExecuted? && Wired(p, m)
    ensures Dispatch(p) == On(Reported(m))
  {
    HeaderRoundTrip(p, E, m.hdr);
    DecodedU64(p, 11, m.ref);
    DecodedU32(p, 19, m.shares);
    DecodedU64(p, 23, m.matchNo);
  }

  lemma WiredExecutedPrice(p: Bytes, m: Message)
    requires m.OrderExecutedPrice? && Wired(p, m)
    ensures Dispatch(p) == On(Reported(m))
  {
    HeaderRoundTrip(p, C, m.hdr);
    DecodedU64(p, 11, m.ref);
    DecodedU32(p, 19, m.shares);
    DecodedU64(p, 23, m.matchNo);
    DecodedU32(p, 32, m.price);
    assert p[31] == p[31..32][0];
  }

  lemma WiredCancel(p: Bytes, m: Message)
    requires m.OrderCancel? && Wired(p, m)
    ensures Dispatch(p) == On(Reported(m))
  {
    HeaderRoundTrip(p, X, m.hdr);
    DecodedU64(p, 11, m.ref);
    DecodedU32(p, 19, m.canceled);
  }

  lemma WiredDelete(p: Bytes, m: Message)
    requires m.OrderDelete? && Wired(p, m)
    ensures Dispatch(p) == On(Reported(m))
  {
    HeaderRoundTrip(p, D, m.hdr);
    DecodedU64(p, 11, m.ref);
  }

  lemma WiredReplace(p: Bytes, m: Message)
    requires m.OrderReplace? && Wired(p, m)
    ensures Dispatch(p) == On(Reported(m))
  {
    HeaderRoundTrip(p, U, m.hdr);
    DecodedU64(p, 11, m.origRef);
    DecodedU64(p, 19, m.newRef);
    DecodedU32(p, 27, m.shares);
    DecodedU32(p, 31, m.price);
  }

  lemma WiredIsDispatched(p: Bytes, m: Message)
    requires Wired(p, m)
    ensures Dispatch(p) == On(Reported(m))
  {
    match m
    case AddOrder(_, _, _, _, _, _) => WiredAdd(p, m);
    case OrderExecuted(_, _, _, _) => WiredExecuted(p, m);
    case OrderExecutedPrice(_, _, _, _, _, _) => WiredExecutedPrice(p, m);
    case OrderCancel(_, _, _) => WiredCancel(p, m);
    case OrderDelete(_, _) => WiredDelete(p, m);
    case OrderReplace(_, _, _, _, _) => WiredReplace(p, m);
  }

  /** Every encoded message is decoded, and reported as described above. */
  lemma MessageRoundTrip(m: Message)
    ensures Dispatch(Encoding(m)) == On(Reported(m))
  {
    EncodingIsWired(m);
    WiredIsDispatched(Encoding(m), m);
  }

  // ---------------------------------------------------------------- when nothing is lost

  predicate TickerFits(s: Bytes) {
    |s| <= 8 && (s == [] || s[|s| - 1] != SPACE)
  }

  /** The nine-byte field that holds exactly this ticker. */
  function Padded(s: Bytes): Bytes {
    if |s| <= 9 then s + Zeros(9 - |s|) else s
  }

  /** The ticker read back from a nine-byte field. */
  function Unpadded(dst: Bytes): Bytes {
    if dst == [] || dst[|dst| - 1] != 0 then dst else Unpadded(dst[..|dst| - 1])
  }

  lemma {:induction false} StripFilled(s: Bytes, n: nat)
    ensures StripSpaces(s + seq(n, _ => SPACE)) == StripSpaces(s)
    decreases n
  {
    var t := s + seq(n, _ => SPACE);
    if n == 0 {
      assert t == s;
    } else {
      assert t[..|t| - 1] == s + seq(n - 1, _ => SPACE);
      StripFilled(s, n - 1);
    }
  }

  lemma {:induction false} StripEndsClean(s: Bytes)
    ensures StripSpaces(s) == [] || StripSpaces(s)[|StripSpaces(s)| - 1] != SPACE
    ensures StripSpaces(s) == s <==> s == [] || s[|s| - 1] != SPACE
    decreases |s|
  {
    if s != [] && s[|s| - 1] == SPACE {
      StripEndsClean(s[..|s| - 1]);
    }
  }

  /** A ticker comes back as it went in exactly when it has at most eight bytes and no
      trailing space, NUL bytes at its end aside. */
  lemma TickerRoundTrip(s: Bytes)
    requires s == [] || s[|s| - 1] != 0
    ensures Unpadded(Trimmed(Stock8(s))) == s <==> TickerFits(s)
  {
    if |s| <= 8 {
      assert Stock8(s) == s + seq(8 - |s|, _ => SPACE);
      StripFilled(s, 8 - |s|);
      StripEndsClean(s);
      if TickerFits(s) {
        UnpadZeros(s, 9 - |s|);
      } else {
        var r := StripSpaces(s);
        StripIsShorter(s);
        UnpadAtMost(r, 9 - |r|);
      }
    } else {
      var r := StripSpaces(Stock8(s));
      UnpadAtMost(r, 9 - |r|);
    }
  }

  lemma {:induction false} UnpadZeros(s: Bytes, n: nat)
    requires s == [] || s[|s| - 1] != 0
    ensures Unpadded(s + Zeros(n)) == s
    decreases n
  {
    var t := s + Zeros(n);
    if n == 0 {
      assert t == s;
    } else {
      assert t[..|t| - 1] == s + Zeros(n - 1);
      UnpadZeros(s, n - 1);
    }
  }

  lemma {:induction false} UnpadAtMost(s: Bytes, n: nat)
    ensures |Unpadded(s + Zeros(n))| <= |s|
    decreases n
  {
    var t := s + Zeros(n);
    if n == 0 {
      assert t == s;
      UnpadIsShorter(s);
    } else {
      assert t[..|t| - 1] == s + Zeros(n - 1);
      UnpadAtMost(s, n - 1);
    }
  }

  lemma {:induction false} UnpadIsShorter(s: Bytes)
    ensures |Unpadded(s)| <= |s|
    decreases |s|
  {
    if s != [] && s[|s| - 1] == 0 {
      UnpadIsShorter(s[..|s| - 1]);
    }
  }

  lemma StripIsShorter(s: Bytes)
    requires s != [] && s[|s| - 1] == SPACE
    ensures |StripSpaces(s)| < |s|
  {
  }

  /** Fields that survive the wire: a 48-bit timestamp and a fitting ticker. */
  predicate Representable(m: Message) {
    && m.hdr.timestamp < TWO_48
    && (m.AddOrder? ==> TickerFits(m.stock))
  }

  /** The original as a decoder would store it: the ticker in its nine-byte field. */
  function Stored(m: Message): Message {
    if m.AddOrder? then m.(stock := Padded(m.stock)) else m
  }

  lemma FittingTickerIsKept(s: Bytes)
    requires TickerFits(s)
    ensures Trimmed(Stock8(s)) == Padded(s)
  {
    assert Stock8(s) == s + seq(8 - |s|, _ => SPACE);
    StripFilled(s, 8 - |s|);
    StripEndsClean(s);
  }

  lemma RepresentableIsReportedWhole(m: Message)
    requires Representable(m)
    ensures Reported(m) == Stored(m)
  {
    if m.AddOrder? {
      FittingTickerIsKept(m.stock);
    }
  }

  // ---------------------------------------------------------------- whole streams

  lemma FramedWalks(m: Bytes, rest: Bytes)
    requires 0 < |m| < 0x1_0000
    ensures Frames(Framed(m) + rest) == [m] + Frames(rest)
    ensures Consumed(Framed(m) + rest) == 2 + |m| + Consumed(rest)
  {
    var data := Framed(m) + rest;
    assert data[0..2] == BigEndian(|m|, 2);
    DecodedU16(data, 0, |m|);
    assert data[2..2 + |m|] == m && data[2 + |m|..] == rest;
    OneFrame(data, 2 + |m|);
  }

  lemma {:induction false} StreamWalks(ms: seq<Bytes>, tail: Bytes)
    requires forall i | 0 <= i < |ms| :: 0 < |ms[i]| < 0x1_0000
    ensures Frames(Concatenated(ms) + tail) == ms + Frames(tail)
    decreases |ms|
  {
    if ms == [] {
      assert Concatenated(ms) + tail == tail;
      assert ms + Frames(tail) == Frames(tail);
    } else {
      var f, rest := Framed(ms[0]), Concatenated(ms[1..]);
      Regroup(f, rest, tail);
      FramedWalks(ms[0], rest + tail);
      StreamWalks(ms[1..], tail);
      Regroup([ms[0]], ms[1..], Frames(tail));
      assert [ms[0]] + ms[1..] == ms;
    }
  }

  /** One thing put on a stream: an encoded message, or raw bytes of a type that is not
      decoded. */
  datatype Item = Encodable(m: Message) | Skipped(bytes: Bytes)

  predicate Streamable(i: Item) {
    match i
    case Encodable(m) => Representable(m)
    case Skipped(b) => 0 < |b| < 0x1_0000 && WireSize(b[0]).None?
  }

  function PayloadOf(i: Item): Bytes {
    match i
    case Encodable(m) => Encoding(m)
    case Skipped(b) => b
  }

  function Expected(i: Item): Call
    requires Streamable(i)
  {
    match i
    case Encodable(m) => On(Stored(m))
    case Skipped(b) => OnOther(b[0], |b|)
  }

  function Payloads(items: seq<Item>): (ms: seq<Bytes>)
    ensures |ms| == |items|
  {
    seq(|items|, k requires 0 <= k < |items| => PayloadOf(items[k]))
  }

  /** Encode and frame any list, follow it with any partial frame: the parser returns the
      list's length and reports the original fields in order. */
  lemma StreamRoundTrip(items: seq<Item>, tail: Bytes)
    requires forall i | 0 <= i < |items| :: Streamable(items[i])
    requires FirstFrame(tail).None?
    ensures var calls := Calls(Concatenated(Payloads(items)) + tail);
            |calls| == |items| && forall i | 0 <= i < |items| :: calls[i] == Expected(items[i])
  {
    var ms := Payloads(items);
    forall i | 0 <= i < |items|
      ensures 0 < |ms[i]| < 0x1_0000 && Dispatch(ms[i]) == Expected(items[i])
    {
      PayloadRoundTrip(items[i]);
    }
    StreamWalks(ms, tail);
    NoFrame(tail);
    assert ms + [] == ms;
  }

  lemma PayloadRoundTrip(i: Item)
    requires Streamable(i)
    ensures 0 < |PayloadOf(i)| < 0x1_0000 && Dispatch(PayloadOf(i)) == Expected(i)
  {
    if i.Encodable? {
      MessageRoundTrip(i.m);
      RepresentableIsReportedWhole(i.m);
    }
  }
}
