/** The parser thread and the book-builder thread over one ring buffer, as a system of
    atomic steps. Every push and pop is split into its load of the own index, its load
    of the other index, its slot access and its store. Each shared atomic is the list of
    all values ever stored to it; a load may return any of them that is not older than
    what the loading thread has already seen, so an index can be stale when it is used. */
module TwoThreads {
  import opened Machine
  import opened Arith
  import opened Bits
  import opened SpscQueues

  datatype ProducerAt = LoadTail | LoadHead | WriteSlot | StoreTail | SizeTail | SizeHead | StoreDone | ProducerEnd
  datatype ConsumerAt = LoadOwnHead | LoadOtherTail | ReadSlot | StoreHead | Dispatching | LoadDone | ConsumerEnd

  /** Ring capacity 2^bits, and the envelopes the decoder hands over. */
  datatype Config<E> = Config(bits: nat, input: seq<E>) {
    function Cap(): nat {
      Pow2(bits)
    }
  }

  datatype Sys<E> = Sys(
    // shared: slots, and the stores made to head_, tail_ and producer_done
    buf: seq<E>, heads: seq<nat>, tails: seq<nat>, dones: seq<bool>,
    // parser thread
    p: ProducerAt, pTail: nat, pHead: nat, pSaw: nat, handed: nat, maxOccupancy: nat, pFrames: nat,
    // book-builder thread
    c: ConsumerAt, cHead: nat, cTail: nat, cSaw: nat, doneSaw: nat, draining: bool, env: Option<E>, out: seq<E>)

  function Last<T>(s: seq<T>): T
    requires s != []
  {
    s[|s| - 1]
  }

  /** One step of either thread; the number picks which store a load of the other
      thread's atomic observes. */
  datatype Action = P(j: nat) | C(j: nat)

  predicate Shaped<E>(s: Sys<E>) {
    s.heads != [] && s.tails != [] && s.dones != []
  }

  predicate Enabled<E>(s: Sys<E>, a: Action) {
    match a
    case P(j) =>
      s.p != ProducerEnd && (s.p == LoadHead || s.p == SizeHead ==> s.pSaw <= j < |s.heads|)
    case C(j) =>
      && s.c != ConsumerEnd
      && (s.c == LoadOtherTail ==> s.cSaw <= j < |s.tails|)
      && (s.c == LoadDone ==> s.doneSaw <= j < |s.dones|)
  }

  ghost predicate Start<E>(g: Config<E>, s: Sys<E>) {
    && |s.buf| == g.Cap()
    && s.heads == [0] && s.tails == [0] && s.dones == [false]
    && s.p == (if g.input == [] then StoreDone else LoadTail)
    && s.pSaw == 0 && s.handed == 0 && s.maxOccupancy == 0 && s.pFrames == 0
    && s.c == LoadOwnHead && s.cSaw == 0 && s.doneSaw == 0 && !s.draining && s.out == []
  }

  function ProducerStep<E>(g: Config<E>, s: Sys<E>, j: nat): Sys<E>
    requires Shaped(s) && Enabled(s, P(j)) && g.Cap() > 0
  {
    match s.p
    case LoadTail => s.(pTail := Last(s.tails), p := LoadHead)
    case LoadHead =>
      var t := s.(pHead := s.heads[j], pSaw := j);
      if Next(s.pTail, g.Cap()) == s.heads[j] then t.(p := LoadTail)   // full: yield and retry
      else t.(p := WriteSlot)
    case WriteSlot =>
      if s.pTail < |s.buf| && s.handed < |g.input|
      then s.(buf := s.buf[s.pTail := g.input[s.handed]], p := StoreTail)
      else s
    case StoreTail => s.(tails := s.tails + [Next(s.pTail, g.Cap())], p := SizeTail)
    case SizeTail => s.(pTail := Last(s.tails), p := SizeHead)
    case SizeHead =>
      var occ := BitAnd((s.pTail - s.heads[j]) % TWO_64, g.Cap() - 1);
      s.(pHead := s.heads[j], pSaw := j, maxOccupancy := if occ > s.maxOccupancy then occ else s.maxOccupancy,
         pFrames := s.pFrames + 1, handed := s.handed + 1,
         p := if s.handed + 1 < |g.input| then LoadTail else StoreDone)
    case StoreDone => s.(dones := s.dones + [true], p := ProducerEnd)
    case ProducerEnd => s
  }

  function ConsumerStep<E>(g: Config<E>, s: Sys<E>, j: nat): Sys<E>
    requires Shaped(s) && Enabled(s, C(j)) && g.Cap() > 0
  {
    match s.c
    case LoadOwnHead => s.(cHead := Last(s.heads), c := LoadOtherTail)
    case LoadOtherTail =>
      var t := s.(cTail := s.tails[j], cSaw := j);
      if s.cHead != s.tails[j] then t.(c := ReadSlot)
      else if s.draining then t.(c := ConsumerEnd)
      else t.(c := LoadDone)
    case ReadSlot =>
      if s.cHead < |s.buf| then s.(env := Some(s.buf[s.cHead]), c := StoreHead) else s
    case StoreHead => s.(heads := s.heads + [Next(s.cHead, g.Cap())], c := Dispatching)
    case Dispatching =>
      if s.env.Some? then s.(out := s.out + [s.env.value], c := LoadOwnHead) else s
    case LoadDone =>
      // an acquiring load that sees the flag also sees every tail store made before it
      if s.dones[j] then s.(doneSaw := j, draining := true, cSaw := |s.tails| - 1, c := LoadOwnHead)
      else s.(doneSaw := j, c := LoadOwnHead)
    case ConsumerEnd => s
  }

  function Step<E>(g: Config<E>, s: Sys<E>, a: Action): Sys<E>
    requires Shaped(s) && Enabled(s, a) && g.Cap() > 0
  {
    match a
    case P(j) => ProducerStep(g, s, j)
    case C(j) => ConsumerStep(g, s, j)
  }

  // ---------------------------------------------------------------- invariant

  function Popped<E>(s: Sys<E>): int {
    |s.heads| - 1
  }

  function Pushed<E>(s: Sys<E>): int {
    |s.tails| - 1
  }

  /** The atomics' histories: every store is the count so far, reduced modulo the capacity. */
  ghost predicate Histories<E>(g: Config<E>, s: Sys<E>) {
    && Shaped(s) && g.bits <= 64 && g.Cap() > 0 && |s.buf| == g.Cap()
    && (forall k | 0 <= k < |s.heads| :: s.heads[k] == k % g.Cap())
    && (forall k | 0 <= k < |s.tails| :: s.tails[k] == k % g.Cap())
    && Popped(s) <= Pushed(s) <= |g.input|
    && s.pSaw <= Popped(s) && Pushed(s) - s.pSaw <= g.Cap() - 1
    && Popped(s) <= s.cSaw <= Pushed(s)
  }

  /** Every unread slot holds the envelope that was pushed there. */
  ghost predicate Slots<E>(g: Config<E>, s: Sys<E>)
    requires Histories(g, s)
  {
    forall i | Popped(s) <= i < Pushed(s) :: s.buf[i % g.Cap()] == g.input[i]
  }

  ghost predicate ProducerOk<E>(g: Config<E>, s: Sys<E>)
    requires Histories(g, s)
  {
    && Pushed(s) == s.handed + (if s.p == SizeTail || s.p == SizeHead then 1 else 0)
    && s.pFrames == s.handed && s.maxOccupancy <= g.Cap() - 1
    && s.dones == (if s.p == ProducerEnd then [false, true] else [false])
    && match s.p
       case LoadTail => s.handed < |g.input|
       case LoadHead => s.handed < |g.input| && s.pTail == Pushed(s) % g.Cap()
       case WriteSlot =>
         s.handed < |g.input| && s.pTail == Pushed(s) % g.Cap() && Pushed(s) + 1 - s.pSaw <= g.Cap() - 1
       case StoreTail =>
         && s.handed < |g.input| && s.pTail == Pushed(s) % g.Cap() && Pushed(s) + 1 - s.pSaw <= g.Cap() - 1
         && s.buf[s.pTail] == g.input[s.handed]
       case SizeTail => true
       case SizeHead => s.pTail == Pushed(s) % g.Cap()
       case StoreDone => s.handed == |g.input|
       case ProducerEnd => s.handed == |g.input|
  }

  ghost predicate ConsumerOk<E>(g: Config<E>, s: Sys<E>)
    requires Histories(g, s)
  {
    && |s.out| == Popped(s) - (if s.c == Dispatching then 1 else 0)
    && s.out == g.input[..|s.out|]
    && s.doneSaw < |s.dones|
    && (s.draining ==> s.p == ProducerEnd && s.cSaw == Pushed(s))
    && match s.c
       case LoadOwnHead => true
       case LoadOtherTail => s.cHead == Popped(s) % g.Cap()
       case ReadSlot => s.cHead == Popped(s) % g.Cap() && Popped(s) < s.cSaw
       case StoreHead => s.cHead == Popped(s) % g.Cap() && Popped(s) < s.cSaw && s.env == Some(g.input[Popped(s)])
       case Dispatching => Popped(s) > 0 && s.env == Some(g.input[Popped(s) - 1])
       case LoadDone => !s.draining
       case ConsumerEnd => s.draining && Popped(s) == Pushed(s)
  }

  ghost predicate Inv<E>(g: Config<E>, s: Sys<E>) {
    Histories(g, s) && Slots(g, s) && ProducerOk(g, s) && ConsumerOk(g, s)
  }

  lemma InvAtStart<E>(g: Config<E>, s: Sys<E>)
    requires Start(g, s) && g.bits <= 64
    ensures Inv(g, s)
  {
    Pow2Positive(g.bits);
    SmallMod(0, g.Cap());
  }

  // ---------------------------------------------------------------- producer steps

  lemma ProducerLoads<E>(g: Config<E>, s: Sys<E>, j: nat)
    requires Inv(g, s) && Enabled(s, P(j)) && (s.p == LoadTail || s.p == SizeTail)
    ensures Inv(g, ProducerStep(g, s, j))
  {
  }

  /** With `pSaw` possibly stale, "full" is reported only when it may be, and "not full"
      only when a slot is free. */
  lemma FullTest<E>(g: Config<E>, s: Sys<E>, j: nat)
    requires Histories(g, s) && s.pSaw <= j < |s.heads| && s.pTail == Pushed(s) % g.Cap()
    ensures Next(s.pTail, g.Cap()) == s.heads[j] <==> Pushed(s) + 1 - j == g.Cap()
  {
    var n, t := g.Cap(), Pushed(s);
    NextIsModular(s.pTail, g.bits);
    NextResidue(t, n);
    if t + 1 - j == n {
      FullTurn(j, n);
    } else {
      SameResidue(j, t + 1, n);
    }
  }

  lemma ProducerLoadHead<E>(g: Config<E>, s: Sys<E>, j: nat)
    requires Inv(g, s) && Enabled(s, P(j)) && s.p == LoadHead
    ensures Inv(g, ProducerStep(g, s, j))
  {
    FullTest(g, s, j);
  }

  lemma ProducerWrite<E>(g: Config<E>, s: Sys<E>, j: nat)
    requires Inv(g, s) && Enabled(s, P(j)) && s.p == WriteSlot
    ensures Inv(g, ProducerStep(g, s, j))
  {
    var n, t := g.Cap(), Pushed(s);
    forall i | Popped(s) <= i < t
      ensures i % n != t % n
    {
      SameResidue(i, t, n);
    }
  }

  lemma ProducerStoreTail<E>(g: Config<E>, s: Sys<E>, j: nat)
    requires Inv(g, s) && Enabled(s, P(j)) && s.p == StoreTail
    ensures Inv(g, ProducerStep(g, s, j))
  {
    NextIsModular(s.pTail, g.bits);
    NextResidue(Pushed(s), g.Cap());
  }

  /** The occupancy read after a push: exact up to the staleness of the head, and never
      above capacity-1. */
  lemma OccupancyReading<E>(g: Config<E>, s: Sys<E>, j: nat)
    requires Histories(g, s) && s.pSaw <= j < |s.heads| && s.pTail == Pushed(s) % g.Cap()
    ensures BitAnd((s.pTail - s.heads[j]) % TWO_64, g.Cap() - 1) == Pushed(s) - j <= g.Cap() - 1
  {
    var x := s.pTail - s.heads[j];
    TwoTo64();
    MaskIsRemainder(x % TWO_64, g.bits);
    WrappedDifference(x, g.bits);
    ResidueDistance(j, Pushed(s), g.Cap());
  }

  lemma ProducerSize<E>(g: Config<E>, s: Sys<E>, j: nat)
    requires Inv(g, s) && Enabled(s, P(j)) && s.p == SizeHead
    ensures Inv(g, ProducerStep(g, s, j))
  {
    OccupancyReading(g, s, j);
  }

  lemma ProducerStoreDone<E>(g: Config<E>, s: Sys<E>, j: nat)
    requires Inv(g, s) && Enabled(s, P(j)) && s.p == StoreDone
    ensures Inv(g, ProducerStep(g, s, j))
  {
  }

  // ---------------------------------------------------------------- consumer steps

  lemma EmptyTest<E>(g: Config<E>, s: Sys<E>, j: nat)
    requires Histories(g, s) && s.cSaw <= j < |s.tails| && s.cHead == Popped(s) % g.Cap()
    ensures s.cHead == s.tails[j] <==> j == Popped(s)
  {
    SameResidue(Popped(s), j, g.Cap());
  }

  lemma ConsumerLoads<E>(g: Config<E>, s: Sys<E>, j: nat)
    requires Inv(g, s) && Enabled(s, C(j)) && (s.c == LoadOwnHead || s.c == LoadDone)
    ensures Inv(g, ConsumerStep(g, s, j))
  {
  }

  lemma ConsumerLoadTail<E>(g: Config<E>, s: Sys<E>, j: nat)
    requires Inv(g, s) && Enabled(s, C(j)) && s.c == LoadOtherTail
    ensures Inv(g, ConsumerStep(g, s, j))
  {
    EmptyTest(g, s, j);
  }

  lemma ConsumerRead<E>(g: Config<E>, s: Sys<E>, j: nat)
    requires Inv(g, s) && Enabled(s, C(j)) && s.c == ReadSlot
    ensures Inv(g, ConsumerStep(g, s, j))
  {
  }

  lemma ConsumerStoreHead<E>(g: Config<E>, s: Sys<E>, j: nat)
    requires Inv(g, s) && Enabled(s, C(j)) && s.c == StoreHead
    ensures Inv(g, ConsumerStep(g, s, j))
  {
    NextIsModular(s.cHead, g.bits);
    NextResidue(Popped(s), g.Cap());
  }

  lemma ConsumerDispatch<E>(g: Config<E>, s: Sys<E>, j: nat)
    requires Inv(g, s) && Enabled(s, C(j)) && s.c == Dispatching
    ensures Inv(g, ConsumerStep(g, s, j))
  {
    var n := |s.out|;
    assert g.input[..n + 1] == g.input[..n] + [g.input[n]];
  }

  /** Every step of either thread, whatever its loads observe, keeps the invariant. */
  lemma StepKeepsInv<E>(g: Config<E>, s: Sys<E>, a: Action)
    requires Inv(g, s) && Enabled(s, a)
    ensures Inv(g, Step(g, s, a))
  {
    match a
    case P(j) =>
      match s.p {
        case LoadTail => ProducerLoads(g, s, j);
        case LoadHead => ProducerLoadHead(g, s, j);
        case WriteSlot => ProducerWrite(g, s, j);
        case StoreTail => ProducerStoreTail(g, s, j);
        case SizeTail => ProducerLoads(g, s, j);
        case SizeHead => ProducerSize(g, s, j);
        case StoreDone => ProducerStoreDone(g, s, j);
        case ProducerEnd =>
      }
    case C(j) =>
      match s.c {
        case LoadOwnHead => ConsumerLoads(g, s, j);
        case LoadOtherTail => ConsumerLoadTail(g, s, j);
        case ReadSlot => ConsumerRead(g, s, j);
        case StoreHead => ConsumerStoreHead(g, s, j);
        case Dispatching => ConsumerDispatch(g, s, j);
        case LoadDone => ConsumerLoads(g, s, j);
        case ConsumerEnd =>
      }
  }
}
