/** Streaming decompression: frames are parsed chunk by chunk, the unconsumed tail of
    each round carried over to the next. */
module GzipSources {
  import opened Wire
  import opened Itch
  import opened Seqs

  /** How inflation ended: at the gzip end marker, out of input before it, or on a
      corrupt stream. */
  datatype Ending = StreamEnd | EndOfFile | Corrupt

  datatype Replay = Replayed(frames: nat) | InflateFailed | TruncatedStream | TrailingPartialFrame

  function Flat(chunks: seq<Bytes>): Bytes {
    if chunks == [] then [] else Flat(chunks[..|chunks| - 1]) + chunks[|chunks| - 1]
  }

  lemma LeftoverSplits(a: Bytes, b: Bytes)
    ensures Leftover(a + b) == Leftover(Leftover(a) + b)
  {
    WalkSplits(a, b);
    DropOfConcat(a, b, Consumed(a));
    DropDrop(a + b, Consumed(a), Consumed(Leftover(a) + b));
  }

  /** The carry-over loop: calls made so far, and the tail kept for the next round. */
  function CarryOver(chunks: seq<Bytes>): (seq<Call>, Bytes) {
    if chunks == [] then ([], [])
    else
      var (calls, pending) := CarryOver(chunks[..|chunks| - 1]);
      Absorbed(calls, pending + chunks[|chunks| - 1])
  }

  /** One round: parse the complete frames of what is pending, keep the rest. */
  function Absorbed(calls: seq<Call>, pending: Bytes): (seq<Call>, Bytes) {
    (calls + Calls(pending[..Consumed(pending)]), Leftover(pending))
  }

  lemma AbsorbOne(flat: Bytes, chunk: Bytes)
    ensures Absorbed(Calls(flat), Leftover(flat) + chunk) == (Calls(flat + chunk), Leftover(flat + chunk))
  {
    var pending := Leftover(flat) + chunk;
    WalkSplits(flat, chunk);
    LeftoverSplits(flat, chunk);
    ConsumedPrefix(pending);
    DispatchedConcat(Frames(flat), Frames(pending));
  }

  /** For every byte string and every split of it into chunks, the carry-over loop makes
      the calls of one parse over the whole and keeps what that parse leaves over. */
  lemma {:induction false} ChunksDoNotMatter(chunks: seq<Bytes>)
    ensures CarryOver(chunks) == (Calls(Flat(chunks)), Leftover(Flat(chunks)))
    decreases |chunks|
  {
    if chunks != [] {
      var n := |chunks| - 1;
      ChunksDoNotMatter(chunks[..n]);
      AbsorbOne(Flat(chunks[..n]), chunks[n]);
    }
  }

  /** A round that inflates nothing changes nothing, which is why it may be skipped. */
  lemma NothingLeftToFind(chunks: seq<Bytes>, chunk: Bytes)
    requires chunk == []
    ensures CarryOver(chunks + [chunk]) == CarryOver(chunks)
  {
    assert (chunks + [chunk])[..|chunks|] == chunks;
    ChunksDoNotMatter(chunks);
    var flat := Flat(chunks);
    AbsorbOne(flat, chunk);
    assert flat + chunk == flat;
  }

  class GzipSource {
    var bytes: nat

    constructor ()
      ensures bytes == 0
    {
      bytes := 0;
    }

    /** The walk of the parser again, for bytes consumed rather than frames counted. */
    static method FrameBoundary(data: Bytes) returns (off: nat)
      ensures off == Consumed(data)
    {
      off := 0;
      while off + 2 <= |data|
        invariant off <= |data|
        invariant off + Consumed(data[off..]) == Consumed(data)
        decreases |data| - off
      {
        var mlen: int := Be16(data, off);
        assert data[off..][0..2] == data[off..off + 2];
        if mlen == 0 || off + 2 + mlen > |data| {
          break;
        }
        OneFrame(data[off..], 2 + mlen);
        assert data[off..][2 + mlen..] == data[off + 2 + mlen..];
        off := off + 2 + mlen;
      }
    }

    /** Whatever the split into chunks: the calls are those of one parse over the whole,
        and, once the end marker is reached, the run succeeds with their number exactly
        when the walk over the whole consumes every byte. */
    method Run(chunks: seq<Bytes>, ending: Ending) returns (r: Replay, calls: seq<Call>)
      modifies this
      ensures bytes == old(bytes) + |Flat(chunks)|
      ensures calls == Calls(Flat(chunks))
      ensures ending == StreamEnd ==>
                r == if Consumed(Flat(chunks)) == |Flat(chunks)|
                     then Replayed(|Frames(Flat(chunks))|) else TrailingPartialFrame
      ensures ending == EndOfFile ==> r == TruncatedStream
      ensures ending == Corrupt ==> r == InflateFailed
    {
      var pending: Bytes, frames := [], 0;
      calls := [];
      var i := 0;
      while i < |chunks|
        invariant 0 <= i <= |chunks|
        invariant bytes == old(bytes) + |Flat(chunks[..i])|
        invariant frames == |calls| && (calls, pending) == CarryOver(chunks[..i])
      {
        assert chunks[..i + 1][..i] == chunks[..i];
        if chunks[i] == [] {
          NothingLeftToFind(chunks[..i], chunks[i]);
          assert chunks[..i] + [chunks[i]] == chunks[..i + 1];
        } else {
          bytes := bytes + |chunks[i]|;
          pending := pending + chunks[i];
          var complete := FrameBoundary(pending);
          var n, more := ParseStream(pending[..complete]);
          frames, calls := frames + n, calls + more;
          pending := pending[complete..];
        }
        i := i + 1;
      }
      assert chunks[..i] == chunks;
      ChunksDoNotMatter(chunks);
      r := match ending
           case Corrupt => InflateFailed
           case EndOfFile => TruncatedStream
           case StreamEnd => if pending != [] then TrailingPartialFrame else Replayed(frames);
    }
  }
}
