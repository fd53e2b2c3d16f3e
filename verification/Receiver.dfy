/** The gap-filling receiver: fields updated in place by nested retry and drain loops. */
module Receivers {
  import opened Machine
  import opened Wire
  import opened Itch
  import M = Mold
  import opened ReceiverSpec

  class Receiver {
    const session: M.SessionId
    var nextSeq: nat
    var ended: bool
    var requestsSent: nat
    var droppedPending: nat
    var countMismatches: nat
    var pending: Pending
    ghost var requests: seq<Request>
    ghost var log: seq<Call>

    ghost predicate Valid()
      reads this
    {
      requestsSent == |requests|
    }

    ghost function State(): Rx
      reads this
    {
      Rx(nextSeq, ended, droppedPending, countMismatches, pending, requests, log)
    }

    constructor (session: M.SessionId)
      ensures Valid() && State() == START && this.session == session
    {
      this.session := session;
      nextSeq, ended := 1, false;
      requestsSent, droppedPending, countMismatches := 0, 0, 0;
      pending, requests, log := map[], [], [];
    }

    /** One datagram from the data channel; the result is the number of frames dispatched. */
    method OnPoll(a: Arrival) returns (frames: nat)
      requires Valid()
      modifies this
      ensures Valid() && State() == Poll(old(State()), session, a)
      ensures frames == Returned(old(State()), session, a)
    {
      if |a.bytes| < M.HEADER_LEN {
        return 0;
      }
      frames := OnPacket(a.bytes, a.replies);
    }

    method OnPacket(bytes: Bytes, replies: seq<seq<Recv>>) returns (frames: nat)
      requires Valid() && |bytes| >= M.HEADER_LEN
      modifies this
      ensures Valid() && State() == Poll(old(State()), session, Arrival(bytes, replies))
      ensures frames == |log| - |old(log)|
    {
      var h := M.Decode(bytes);
      if h.session != session {
        return 0;
      }
      if h.count == M.END_OF_SESSION {
        ended := true;
        return 0;
      }
      if h.count == M.HEARTBEAT {
        return 0;
      }
      frames := AcceptPacket(h.seqNo, h.count, bytes[M.HEADER_LEN..], replies);
    }

    method AcceptPacket(seqNo: u64, count: u16, payload: Bytes, replies: seq<seq<Recv>>) returns (frames: nat)
      requires Valid()
      modifies this
      ensures Valid() && State() == Accept(old(State()), session, seqNo, Packet(count, payload), replies)
      ensures frames == |log| - |old(log)|
    {
      if seqNo < nextSeq {
        return 0;
      }
      BufferPacket(seqNo, count, payload);
      FillGaps(replies);
      frames := DrainPending();
    }

    method BufferPacket(seqNo: u64, count: u16, payload: Bytes)
      requires Valid()
      modifies this`pending, this`droppedPending
      ensures Valid() && State() == Buffer(old(State()), seqNo, Packet(count, payload))
    {
      if |pending| >= MAX_PENDING && seqNo !in pending {
        droppedPending := droppedPending + 1;
        return;
      }
      pending := pending[seqNo := Packet(count, payload)];
    }

    method FillGaps(replies: seq<seq<Recv>>)
      requires Valid()
      modifies this`pending, this`droppedPending, this`requestsSent, this`requests
      ensures Valid() && State() == ResolveGaps(old(State()), session, MAX_GAP_FILL_ATTEMPTS, replies)
    {
      var attempts := 0;
      var left := replies;
      while pending != map[] && First(pending) > nextSeq && attempts < MAX_GAP_FILL_ATTEMPTS
        invariant Valid() && 0 <= attempts <= MAX_GAP_FILL_ATTEMPTS
        invariant ResolveGaps(State(), session, MAX_GAP_FILL_ATTEMPTS - attempts, left)
               == ResolveGaps(old(State()), session, MAX_GAP_FILL_ATTEMPTS, replies)
        decreases MAX_GAP_FILL_ATTEMPTS - attempts
      {
        requests := requests + [GapRequest(State())];
        requestsSent := requestsSent + 1;
        attempts := attempts + 1;
        ReceiveReplies(Head(left));
        left := Tail(left);
      }
    }

    /** The `recv` loop of one attempt. */
    method ReceiveReplies(rs: seq<Recv>)
      requires Valid()
      modifies this`pending, this`droppedPending
      ensures Valid() && State() == TakeReplies(old(State()), session, rs)
    {
      var i := 0;
      while i < |rs|
        invariant 0 <= i <= |rs| && Valid()
        invariant TakeReplies(State(), session, rs[i..]) == TakeReplies(old(State()), session, rs)
      {
        var r := rs[i];
        assert rs[i..][0] == r && rs[i..][1..] == rs[i + 1..];
        i := i + 1;
        if |r.bytes| < M.HEADER_LEN {
          if r.again {
            break;
          }
          continue;
        }
        var h := M.Decode(r.bytes);
        if h.session != session {
          continue;
        }
        if h.count == M.HEARTBEAT || h.count == M.END_OF_SESSION {
          continue;
        }
        if h.seqNo < nextSeq {
          continue;
        }
        BufferPacket(h.seqNo, h.count, r.bytes[M.HEADER_LEN..]);
        if pending != map[] && First(pending) == nextSeq {
          break;
        }
      }
    }

    method DrainPending() returns (frames: nat)
      requires Valid()
      modifies this`nextSeq, this`countMismatches, this`pending, this`log
      ensures Valid() && State() == Drain(old(State()))
      ensures frames == |log| - |old(log)|
    {
      frames := 0;
      while pending != map[] && First(pending) == nextSeq
        invariant Valid() && Drain(State()) == Drain(old(State()))
        invariant frames == |log| - |old(log)|
        decreases |pending|
      {
        assert (pending - {nextSeq}).Keys == pending.Keys - {nextSeq};
        var parsed := HandOver();
        frames := frames + parsed;
      }
    }

    /** Hands the earliest packet to the parser and trusts what it parsed, not `count`. */
    method HandOver() returns (parsed: nat)
      requires Valid() && nextSeq in pending
      modifies this`nextSeq, this`countMismatches, this`pending, this`log
      ensures Valid() && State() == Consume(old(State()))
      ensures parsed == |log| - |old(log)|
    {
      var node := pending[nextSeq];
      var calls: seq<Call>;
      parsed, calls := ParseStream(node.payload);
      log := log + calls;
      if parsed != node.count {
        countMismatches := countMismatches + 1;
      }
      pending := pending - {nextSeq};
      nextSeq := nextSeq + parsed;
    }
  }

  /** A whole run of polls. */
  method Listen(receiver: Receiver, arrivals: seq<Arrival>) returns (frames: int)
    requires receiver.Valid()
    modifies receiver
    ensures receiver.Valid() && receiver.State() == Run(old(receiver.State()), receiver.session, arrivals)
    ensures frames == ReturnedInAll(old(receiver.State()), receiver.session, arrivals)
  {
    frames := 0;
    var i := 0;
    while i < |arrivals|
      invariant 0 <= i <= |arrivals| && receiver.Valid()
      invariant Run(receiver.State(), receiver.session, arrivals[i..])
             == Run(old(receiver.State()), receiver.session, arrivals)
      invariant frames + ReturnedInAll(receiver.State(), receiver.session, arrivals[i..])
             == ReturnedInAll(old(receiver.State()), receiver.session, arrivals)
    {
      assert arrivals[i..][0] == arrivals[i] && arrivals[i..][1..] == arrivals[i + 1..];
      var n := receiver.OnPoll(arrivals[i]);
      frames := frames + n;
      i := i + 1;
    }
  }
}
