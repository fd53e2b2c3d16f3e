/** The honest sender, the lossy network, and the receiver at the other end. */
module Session {
  import opened Machine
  import opened Wire
  import opened Itch
  import opened Encode
  import opened FrameFormats
  import opened Seqs
  import M = Mold
  import opened ReceiverSpec
  import opened ReceiverLaws

  /** Largest datagram either socket reads. */
  const MAX_DATAGRAM: nat := 65536

  // ---------------------------------------------------------------- message blocks

  /** The complete frames of a buffer, length prefixes included. */
  function Blocks(data: Bytes): seq<Bytes>
    decreases |data|
  {
    match FirstFrame(data)
    case None => []
    case Some(n) => [data[..n]] + Blocks(data[n..])
  }

  lemma BlockParses(data: Bytes, n: nat, k: nat)
    requires FirstFrame(data) == Some(n) && k <= n
    ensures Frames(data[..n][..k]) == if k == n then [data[2..n]] else []
  {
    var b := data[..k];
    assert data[..n][..k] == b;
    if k >= 2 {
      assert b[0..2] == data[0..2];
    }
    if k == n {
      OneFrame(b, n);
      assert b[n..] == [] && b[2..n] == data[2..n];
      NoFrame(b[n..]);
    } else {
      NoFrame(b);
    }
  }

  lemma {:induction false} AsManyBlocksAsFrames(data: Bytes)
    ensures |Blocks(data)| == |Frames(data)|
    decreases |data|
  {
    match FirstFrame(data) {
      case None =>
      case Some(n) => AsManyBlocksAsFrames(data[n..]);
    }
  }

  lemma {:induction false} BlockFront(data: Bytes, i: nat, k: nat)
    requires i < |Blocks(data)| && k <= |Blocks(data)[i]|
    ensures i < |Frames(data)|
    ensures Frames(Blocks(data)[i][..k]) == if k == |Blocks(data)[i]| then [Frames(data)[i]] else []
    decreases |data|
  {
    var n := FirstFrame(data).value;
    OneFrame(data, n);
    if i == 0 {
      BlockParses(data, n, k);
    } else {
      BlockFront(data[n..], i - 1, k);
    }
  }

  /** Each block holds one frame of the buffer, and a block cut short holds none. */
  lemma BlocksAreFrames(data: Bytes)
    ensures |Blocks(data)| == |Frames(data)|
    ensures forall i, k: nat | 0 <= i < |Blocks(data)| && k <= |Blocks(data)[i]| ::
              Frames(Blocks(data)[i][..k]) == if k == |Blocks(data)[i]| then [Frames(data)[i]] else []
  {
    AsManyBlocksAsFrames(data);
    forall i, k: nat | 0 <= i < |Blocks(data)| && k <= |Blocks(data)[i]|
      ensures Frames(Blocks(data)[i][..k]) == if k == |Blocks(data)[i]| then [Frames(data)[i]] else []
    {
      BlockFront(data, i, k);
    }
  }

  /** A block is its frame behind the frame's length, so the blocks in a row are the bytes
      the walk consumes. */
  lemma {:induction false} BlocksAreFramed(data: Bytes)
    ensures |Blocks(data)| == |Frames(data)|
    ensures forall i | 0 <= i < |Blocks(data)| :: Blocks(data)[i] == Framed(Frames(data)[i])
    decreases |data|
  {
    match FirstFrame(data) {
      case None =>
      case Some(n) =>
        OneFrame(data, n);
        FrontIsFramed(data, n);
        BlocksAreFramed(data[n..]);
    }
  }

  // ---------------------------------------------------------------- sender

  /** The packets of `send_all` for the messages before n. */
  function SentBefore(me: M.SessionId, blocks: seq<Bytes>, drop: u64 -> bool, n: nat): seq<Bytes>
    requires n <= |blocks| < TWO_64
  {
    if n == 0 then []
    else SentBefore(me, blocks, drop, n - 1)
         + (if drop(n) then [] else [DataPacket(me, n, 1, blocks[n - 1])])
  }

  /** The numbers of the messages on the wire, in ascending order: each one that is not
      dropped and no other, and its packet carries its own block. */
  lemma {:induction false} SentOnceInOrder(me: M.SessionId, blocks: seq<Bytes>, drop: u64 -> bool, n: nat)
    returns (nos: seq<u64>)
    requires n <= |blocks| < TWO_64
    ensures var wire := SentBefore(me, blocks, drop, n);
            Numbered(drop, n, nos) && Carries(me, blocks, nos, wire)
    decreases n
  {
    if n == 0 {
      return [];
    }
    nos := SentOnceInOrder(me, blocks, drop, n - 1);
    if !drop(n) {
      NumberedOneMore(drop, n, nos);
      CarriesOneMore(me, blocks, nos, SentBefore(me, blocks, drop, n - 1), n);
      nos := nos + [n];
    }
  }

  /** One packet for each number, with the block of that number. */
  ghost predicate Carries(me: M.SessionId, blocks: seq<Bytes>, nos: seq<u64>, wire: seq<Bytes>) {
    |nos| == |wire| && forall i | 0 <= i < |wire| :: IsBlockPacket(me, blocks, nos[i], wire[i])
  }

  lemma CarriesOneMore(me: M.SessionId, blocks: seq<Bytes>, nos: seq<u64>, wire: seq<Bytes>, no: u64)
    requires 1 <= no <= |blocks| && Carries(me, blocks, nos, wire)
    ensures Carries(me, blocks, nos + [no], wire + [DataPacket(me, no, 1, blocks[no - 1])])
  {
    assert IsBlockPacket(me, blocks, no, DataPacket(me, no, 1, blocks[no - 1]));
  }

  /** The undropped numbers up to n, ascending. */
  ghost predicate Numbered(drop: u64 -> bool, n: nat, nos: seq<u64>) {
    && (forall i, j | 0 <= i < j < |nos| :: nos[i] < nos[j])
    && (forall no: u64 :: no in nos <==> 1 <= no <= n && !drop(no))
  }

  lemma NumberedOneMore(drop: u64 -> bool, n: u64, nos: seq<u64>)
    requires n > 0 && !drop(n) && Numbered(drop, n - 1, nos)
    ensures Numbered(drop, n, nos + [n])
  {
    assert forall i | 0 <= i < |nos| :: nos[i] in nos;
  }

  class Sender {
    const session: M.SessionId
    var messages: seq<Bytes>

    constructor (session: M.SessionId)
      ensures this.session == session && messages == []
    {
      this.session, messages := session, [];
    }

    method Load(framed: Bytes)
      modifies this
      ensures messages == Blocks(framed)
    {
      messages := [];
      var off := 0;
      while off + 2 <= |framed|
        invariant off <= |framed|
        invariant messages + Blocks(framed[off..]) == Blocks(framed)
        decreases |framed| - off
      {
        var mlen: int := Be16(framed, off);
        assert framed[off..][0..2] == framed[off..off + 2];
        if mlen == 0 || off + 2 + mlen > |framed| {
          break;
        }
        BlockAt(framed, off, 2 + mlen);
        Regroup(messages, [framed[off..off + 2 + mlen]], Blocks(framed[off + 2 + mlen..]));
        messages := messages + [framed[off..off + 2 + mlen]];
        off := off + 2 + mlen;
      }
      assert FirstFrame(framed[off..]).None?;
    }

    /** Every loaded message once, in order, except those `drop` takes, then the end of
        the session. The result is what goes on the wire. */
    method SendAll(drop: u64 -> bool) returns (wire: seq<Bytes>)
      requires |messages| < TWO_64 - 1
      ensures wire == SentBefore(session, messages, drop, |messages|)
                      + [DataPacket(session, |messages| + 1, M.END_OF_SESSION, [])]
      ensures forall i | 0 <= i < |wire| :: FromSender(session, messages, wire[i])
    {
      wire := [];
      var i := 0;
      while i < |messages|
        invariant 0 <= i <= |messages|
        invariant wire == SentBefore(session, messages, drop, i)
      {
        var no := i + 1;
        if !drop(no) {
          var pkt := SendDataPacket(no, 1, messages[i]);
          wire := wire + [pkt];
        }
        i := no;
      }
      SentIsFromSender(session, messages, drop, |messages|);
      var end := SendDataPacket(|messages| + 1, M.END_OF_SESSION, []);
      wire := wire + [end];
    }

    /** Answers one request: the messages asked for, one packet each, up to the last
        loaded one; nothing at all from a number that was never sent. */
    method ServeOneRequest(request: Bytes) returns (served: bool, replies: seq<Bytes>)
      requires |messages| < TWO_64
      ensures served <==> |request| >= M.HEADER_LEN && M.Decode(request).session == session
      ensures !served ==> replies == []
      ensures served ==>
                var h := M.Decode(request);
                var n := if 1 <= h.seqNo <= |messages| then Min(h.count, |messages| - h.seqNo + 1) else 0;
                && |replies| == n
                && forall j | 0 <= j < n :: replies[j] == DataPacket(session, h.seqNo + j, 1, messages[h.seqNo + j - 1])
      ensures forall j | 0 <= j < |replies| :: FromSender(session, messages, replies[j])
    {
      replies := [];
      if |request| < M.HEADER_LEN {
        return false, [];
      }
      var h := M.Decode(request);
      if h.session != session {
        return false, [];
      }
      replies := Retransmit(h.seqNo, h.count);
      served := true;
    }

    /** The reply loop of one request. */
    method Retransmit(first: u64, count: u16) returns (replies: seq<Bytes>)
      requires |messages| < TWO_64
      ensures |replies| == if 1 <= first <= |messages| then Min(count, |messages| - first + 1) else 0
      ensures forall j | 0 <= j < |replies| ::
                replies[j] == DataPacket(session, first + j, 1, messages[first + j - 1])
      ensures forall j | 0 <= j < |replies| :: FromSender(session, messages, replies[j])
    {
      replies := [];
      var k: int := 0;
      while k < count
        invariant 0 <= k <= count && |replies| == k
        invariant k > 0 ==> 1 <= first && first + k - 1 <= |messages|
        invariant forall j | 0 <= j < k :: replies[j] == DataPacket(session, first + j, 1, messages[first + j - 1])
      {
        var no := (first + k) % TWO_64;
        if no < 1 || no > |messages| {
          break;
        }
        var pkt := SendDataPacket(no, 1, messages[no - 1]);
        replies := replies + [pkt];
        k := k + 1;
      }
      if replies != [] {
        RepliesAreFromSender(session, messages, first, replies);
      }
    }

    method SendDataPacket(seqNo: u64, count: u16, payload: Bytes) returns (pkt: Bytes)
      ensures pkt == DataPacket(session, seqNo, count, payload)
    {
      pkt := M.Encode([], M.Header(session, seqNo, count));
      assert [] + M.HeaderBytes(M.Header(session, seqNo, count)) == M.HeaderBytes(M.Header(session, seqNo, count));
      pkt := pkt + payload;
    }
  }

  lemma BlockAt(data: Bytes, off: nat, n: nat)
    requires off <= |data| && FirstFrame(data[off..]) == Some(n)
    ensures off + n <= |data| && Blocks(data[off..]) == [data[off..off + n]] + Blocks(data[off + n..])
  {
    assert data[off..][..n] == data[off..off + n] && data[off..][n..] == data[off + n..];
  }

  // ---------------------------------------------------------------- network

  ghost predicate IsBlockPacket(me: M.SessionId, blocks: seq<Bytes>, no: u64, b: Bytes) {
    1 <= no <= |blocks| && b == DataPacket(me, no, 1, blocks[no - 1])
  }

  /** A packet this sender may emit: a numbered block, a heartbeat, or the end. */
  ghost predicate FromSender(me: M.SessionId, blocks: seq<Bytes>, b: Bytes) {
    || (exists no: u64 :: IsBlockPacket(me, blocks, no, b))
    || (exists no: u64 :: b == DataPacket(me, no, M.HEARTBEAT, []))
    || (exists no: u64 :: b == DataPacket(me, no, M.END_OF_SESSION, []))
  }

  function Clipped(b: Bytes): Bytes {
    if |b| > MAX_DATAGRAM then b[..MAX_DATAGRAM] else b
  }

  /** What a read can yield: nothing usable, or a packet that was sent at some time, cut
      to the read buffer. Loss, duplication and reordering are all allowed. */
  ghost predicate Heard(me: M.SessionId, blocks: seq<Bytes>, b: Bytes) {
    |b| < M.HEADER_LEN || exists sent :: FromSender(me, blocks, sent) && b == Clipped(sent)
  }

  ghost predicate Lossy(me: M.SessionId, blocks: seq<Bytes>, a: Arrival) {
    && Heard(me, blocks, a.bytes)
    && forall i, j | 0 <= i < |a.replies| && 0 <= j < |a.replies[i]| :: Heard(me, blocks, a.replies[i][j].bytes)
  }

  lemma RepliesAreFromSender(me: M.SessionId, blocks: seq<Bytes>, first: u64, replies: seq<Bytes>)
    requires 1 <= first && first - 1 + |replies| <= |blocks| < TWO_64
    requires forall j | 0 <= j < |replies| :: replies[j] == DataPacket(me, first + j, 1, blocks[first + j - 1])
    ensures forall j | 0 <= j < |replies| :: FromSender(me, blocks, replies[j])
  {
    forall j | 0 <= j < |replies|
      ensures FromSender(me, blocks, replies[j])
    {
      assert IsBlockPacket(me, blocks, first + j, replies[j]);
    }
  }

  lemma {:induction false} SentIsFromSender(me: M.SessionId, blocks: seq<Bytes>, drop: u64 -> bool, n: nat)
    requires n <= |blocks| < TWO_64
    ensures forall i | 0 <= i < |SentBefore(me, blocks, drop, n)| ::
              FromSender(me, blocks, SentBefore(me, blocks, drop, n)[i])
    decreases n
  {
    if n > 0 {
      SentIsFromSender(me, blocks, drop, n - 1);
      var no: u64 := n;
      assert IsBlockPacket(me, blocks, no, DataPacket(me, no, 1, blocks[no - 1]));
    }
  }

  lemma ClippedPacket(me: M.SessionId, no: u64, block: Bytes) returns (k: nat)
    ensures k <= |block| && Clipped(DataPacket(me, no, 1, block)) == DataPacket(me, no, 1, block[..k])
    ensures k == if |block| <= 65_516 then |block| else 65_516
  {
    var h := M.HeaderBytes(M.Header(me, no, 1));
    var b := Clipped(h + block);
    k := |b| - M.HEADER_LEN;
    assert b == h + block[..k];
  }

  lemma OneFrameIsHonest(msgs: seq<Bytes>, no: u64, p: Packet)
    requires 1 <= no <= |msgs| && (Frames(p.payload) == [] || Frames(p.payload) == [msgs[no - 1]])
    ensures Honest(msgs, no, p) && Single(p)
  {
    assert msgs[no - 1..no] == [msgs[no - 1]];
  }

  /** Any front part of a block is an honest payload of at most one message. */
  lemma FrontOfBlock(framed: Bytes, no: u64, k: nat)
    requires 1 <= no <= |Blocks(framed)| && k <= |Blocks(framed)[no - 1]|
    ensures var p := Packet(1, Blocks(framed)[no - 1][..k]);
            Honest(Frames(framed), no, p) && Single(p)
  {
    AsManyBlocksAsFrames(framed);
    BlockFront(framed, no - 1, k);
    OneFrameIsHonest(Frames(framed), no, Packet(1, Blocks(framed)[no - 1][..k]));
  }

  /** Whatever is heard of a packet is honest, even when it was cut short. */
  lemma ClippedBlockIsHonest(me: M.SessionId, framed: Bytes, no: u64)
    requires 1 <= no <= |Blocks(framed)|
    ensures var b := Clipped(DataPacket(me, no, 1, Blocks(framed)[no - 1]));
            && |b| >= M.HEADER_LEN && M.Decode(b) == M.Header(me, no, 1)
            && Honest(Frames(framed), no, Packet(1, b[M.HEADER_LEN..]))
            && Single(Packet(1, b[M.HEADER_LEN..]))
  {
    var block := Blocks(framed)[no - 1];
    var k := ClippedPacket(me, no, block);
    M.HeaderRoundTrip(M.Header(me, no, 1), block[..k]);
    FrontOfBlock(framed, no, k);
  }

  lemma HeardIsAdmitted(me: M.SessionId, framed: Bytes, b: Bytes)
    requires Heard(me, Blocks(framed), b)
    ensures AdmittedDatagram(me, HonestTo(Frames(framed)), b)
    ensures AdmittedDatagram(me, Singles(), b)
  {
    if |b| >= M.HEADER_LEN {
      var sent :| FromSender(me, Blocks(framed), sent) && b == Clipped(sent);
      if no: u64 :| IsBlockPacket(me, Blocks(framed), no, sent) {
        ClippedBlockIsHonest(me, framed, no);
      } else if no: u64 :| sent == DataPacket(me, no, M.HEARTBEAT, []) {
        M.HeaderRoundTrip(M.Header(me, no, M.HEARTBEAT), []);
      } else {
        var no: u64 :| sent == DataPacket(me, no, M.END_OF_SESSION, []);
        M.HeaderRoundTrip(M.Header(me, no, M.END_OF_SESSION), []);
      }
    }
  }

  lemma LossyIsAdmitted(me: M.SessionId, framed: Bytes, a: Arrival)
    requires Lossy(me, Blocks(framed), a)
    ensures Admitted(me, HonestTo(Frames(framed)), a) && Admitted(me, Singles(), a)
  {
    HeardIsAdmitted(me, framed, a.bytes);
    forall i, j | 0 <= i < |a.replies| && 0 <= j < |a.replies[i]|
      ensures AdmittedDatagram(me, HonestTo(Frames(framed)), a.replies[i][j].bytes)
      ensures AdmittedDatagram(me, Singles(), a.replies[i][j].bytes)
    {
      HeardIsAdmitted(me, framed, a.replies[i][j].bytes);
    }
  }

  /** End to end over any lossy network: what the handler has seen is always a prefix of
      what parsing the loaded buffer yields, and is all of it once nextSeq is one past the
      number of messages. Nothing stale is ever left behind. */
  lemma EndToEnd(me: M.SessionId, framed: Bytes, arrivals: seq<Arrival>)
    requires forall i | 0 <= i < |arrivals| :: Lossy(me, Blocks(framed), arrivals[i])
    ensures var s := Run(START, me, arrivals);
            && 1 <= s.nextSeq <= |Calls(framed)| + 1
            && s.log == Calls(framed)[..s.nextSeq - 1]
            && (s.nextSeq == |Calls(framed)| + 1 ==> s.log == Calls(framed))
            && !Stale(s)
  {
    forall i | 0 <= i < |arrivals|
      ensures Admitted(me, HonestTo(Frames(framed)), arrivals[i]) && Admitted(me, Singles(), arrivals[i])
    {
      LossyIsAdmitted(me, framed, arrivals[i]);
    }
    DeliversInOrderExactlyOnce(Frames(framed), me, arrivals);
    SinglesLeaveNothingStale(START, me, arrivals);
    DispatchedPrefix(Frames(framed), Run(START, me, arrivals).nextSeq - 1);
  }

  lemma DispatchedPrefix(fs: seq<Bytes>, n: nat)
    requires n <= |fs| && forall i | 0 <= i < |fs| :: fs[i] != []
    ensures Dispatched(fs[..n]) == Dispatched(fs)[..n]
  {
  }

  // ---------------------------------------------------------------- recovery

  /** Caught up: everything before `no` delivered, nothing buffered. */
  ghost predicate CaughtUp(s: Rx, no: nat) {
    s.nextSeq == no && s.pending == map[]
  }

  /** What a poll gets back after a loss of two messages or more, answered in order: one
      message, however many answers are on their way. The packet that revealed the loss
      stays buffered. */
  lemma InOrderRepliesRecoverOne(s: Rx, me: M.SessionId, no: u64, q: u64, f: Bytes, g: Bytes,
                                 rest: seq<Recv>, more: seq<seq<Recv>>)
    requires CaughtUp(s, no) && q >= no + 2 && |Frames(f)| == 1
    ensures var first, later := DataPacket(me, no, 1, f), DataPacket(me, q, 1, g);
            var s' := Poll(s, me, Arrival(later, [[Recv(first, false)] + rest] + more));
            && s'.nextSeq == no + 1 && s'.pending == map[q := Packet(1, g)]
            && s'.log == s.log + [Dispatch(Frames(f)[0])]
            && s'.requests == s.requests + [Request(no, Min(q - no, 0xFFFE), {q})]
  {
    var replies := [[Recv(DataPacket(me, no, 1, f), false)] + rest] + more;
    var b := Buffer(s, q, Packet(1, g));
    LossIsAsked(s, no, q, g);
    GapIsFilled(b, me, no, q, f, g, rest, replies);
    var r := b.(requests := b.requests + [Request(no, Min(q - no, 0xFFFE), {q})],
                pending := b.pending[no := Packet(1, f)]);
    PollDrains(s, me, q, 1, g, replies, r);
    DrainsOne(r, no, q, f, g);
  }

  lemma PollDrains(s: Rx, me: M.SessionId, seqNo: u64, count: u16, payload: Bytes, replies: seq<seq<Recv>>, r: Rx)
    requires count != M.HEARTBEAT && count != M.END_OF_SESSION && seqNo >= s.nextSeq
    requires ResolveGaps(Buffer(s, seqNo, Packet(count, payload)), me, MAX_GAP_FILL_ATTEMPTS, replies) == r
    ensures Poll(s, me, Arrival(DataPacket(me, seqNo, count, payload), replies)) == Drain(r)
  {
    PollOfDataPacket(s, me, seqNo, count, payload, replies);
  }

  /** One lost message is recovered in the poll that reveals the loss: packet no+1 comes
      in, one request names exactly the lost number, its answer closes the gap, and both
      messages are delivered in order. */
  lemma OneLossIsRecovered(s: Rx, me: M.SessionId, no: u64, f: Bytes, g: Bytes, rest: seq<Recv>, more: seq<seq<Recv>>)
    requires CaughtUp(s, no) && no + 1 < TWO_64
    requires |Frames(f)| == 1 && |Frames(g)| == 1
    ensures var lost, next := DataPacket(me, no, 1, f), DataPacket(me, no + 1, 1, g);
            var s' := Poll(s, me, Arrival(next, [[Recv(lost, false)] + rest] + more));
            && CaughtUp(s', no + 2)
            && s'.log == s.log + [Dispatch(Frames(f)[0]), Dispatch(Frames(g)[0])]
            && s'.requests == s.requests + [Request(no, 1, {no + 1})]
  {
    var replies := [[Recv(DataPacket(me, no, 1, f), false)] + rest] + more;
    PollOfDataPacket(s, me, no + 1, 1, g, replies);
    var b := Buffer(s, no + 1, Packet(1, g));
    LossIsAsked(s, no, no + 1, g);
    GapIsFilled(b, me, no, no + 1, f, g, rest, replies);
    DrainsTwo(ResolveGaps(b, me, MAX_GAP_FILL_ATTEMPTS, replies), no, f, g);
  }

  lemma GapIsFilled(b: Rx, me: M.SessionId, no: u64, q: u64, f: Bytes, g: Bytes,
                    rest: seq<Recv>, replies: seq<seq<Recv>>)
    requires b.nextSeq == no && q > no && b.pending == map[q := Packet(1, g)]
    requires b.pending != map[] && First(b.pending) == q && GapRequest(b) == Request(no, Min(q - no, 0xFFFE), {q})
    requires replies != [] && replies[0] == [Recv(DataPacket(me, no, 1, f), false)] + rest
    ensures ResolveGaps(b, me, MAX_GAP_FILL_ATTEMPTS, replies)
         == b.(requests := b.requests + [Request(no, Min(q - no, 0xFFFE), {q})],
               pending := b.pending[no := Packet(1, f)])
  {
    var asked := b.(requests := b.requests + [Request(no, Min(q - no, 0xFFFE), {q})]);
    ReplyCloses(asked, me, no, q, f, g, rest);
    var c := TakeReplies(asked, me, replies[0]);
    assert ResolveGaps(c, me, MAX_GAP_FILL_ATTEMPTS - 1, Tail(replies)) == c;
  }

  lemma LossIsAsked(s: Rx, no: u64, q: u64, g: Bytes)
    requires CaughtUp(s, no) && q > no
    ensures var b := Buffer(s, q, Packet(1, g));
            && b == s.(pending := map[q := Packet(1, g)])
            && b.pending != map[] && First(b.pending) == q
            && GapRequest(b) == Request(no, Min(q - no, 0xFFFE), {q})
  {
    var b := Buffer(s, q, Packet(1, g));
    assert b.pending == map[q := Packet(1, g)];
    FirstIs(b.pending, q);
    assert b.pending.Keys == {q};
  }

  lemma ReplyCloses(s: Rx, me: M.SessionId, no: u64, q: u64, f: Bytes, g: Bytes, rest: seq<Recv>)
    requires s.nextSeq == no && q > no && s.pending == map[q := Packet(1, g)]
    ensures var s' := TakeReplies(s, me, [Recv(DataPacket(me, no, 1, f), false)] + rest);
            && s' == s.(pending := s.pending[no := Packet(1, f)])
            && s'.pending != map[] && First(s'.pending) == no
  {
    M.HeaderRoundTrip(M.Header(me, no, 1), f);
    assert |s.pending| == 1;
    FirstIs(s.pending[no := Packet(1, f)], no);
  }

  lemma DrainsOne(s: Rx, no: u64, q: u64, f: Bytes, g: Bytes)
    requires s.nextSeq == no && q >= no + 2
    requires s.pending == map[q := Packet(1, g)][no := Packet(1, f)]
    requires |Frames(f)| == 1
    ensures Drain(s).nextSeq == no + 1 && Drain(s).pending == map[q := Packet(1, g)]
    ensures Drain(s).log == s.log + [Dispatch(Frames(f)[0])]
    ensures Drain(s).requests == s.requests
  {
    FirstIs(s.pending, no);
    var c := Consume(s);
    assert c.pending == map[q := Packet(1, g)];
    FirstIs(c.pending, q);
    assert Drain(c) == c;
  }

  lemma DrainsTwo(s: Rx, no: u64, f: Bytes, g: Bytes)
    requires s.nextSeq == no && no + 1 < TWO_64
    requires s.pending == map[(no + 1) as u64 := Packet(1, g)][no := Packet(1, f)]
    requires |Frames(f)| == 1 && |Frames(g)| == 1
    ensures CaughtUp(Drain(s), no + 2)
    ensures Drain(s).log == s.log + [Dispatch(Frames(f)[0]), Dispatch(Frames(g)[0])]
    ensures Drain(s).requests == s.requests
  {
    FirstIs(s.pending, no);
    var c := Consume(s);
    assert c.pending == map[(no + 1) as u64 := Packet(1, g)];
    FirstIs(c.pending, no + 1);
    var d := Consume(c);
    assert d.pending == map[];
    assert Drain(c) == d;
  }
}
