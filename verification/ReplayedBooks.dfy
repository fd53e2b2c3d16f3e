/** When threaded and direct replay build the same books, for the two kinds of book the
    pipeline holds. */
module ReplayedBooks {
  import opened Machine
  import opened BookSpec
  import opened PriceGrid
  import opened LadderSpec
  import opened Wire
  import opened Itch
  import opened BookBuilders
  import opened BookKinds
  import opened ThreadedReplay
  import T = TwoThreads

  /** The resting orders a zeroed message leaves as they are, with a true result: order 0
      rests with shares left and none are taken off it, or it is replaced by itself. */
  predicate Unfelt(orders: Orders, kind: u8) {
    && 0 in orders
    && (((kind == E || kind == C || kind == X) && orders[0].shares > 0)
        || (kind == U && orders[0].shares == 0 && orders[0].price == 0))
  }

  lemma MapOpUnfeltIff(orders: Orders, kind: u8)
    requires WireSize(kind).Some?
    ensures Apply(orders, OpOf(Zeroed(kind))) == Outcome(orders, true) <==> Unfelt(orders, kind)
  {
    var after := Apply(orders, OpOf(Zeroed(kind)));
    if 0 in orders {
      var o := orders[0];
      if kind == U {
        assert after.orders == orders[0 := Order(0, 0, o.side)];
        assert after.orders[0] == Order(0, 0, o.side);
      } else if kind == E || kind == C || kind == X {
        if o.shares > 0 {
          assert after.orders == orders;
        } else {
          assert 0 !in after.orders;
        }
      }
    }
  }

  lemma LadderOpUnfeltIff(w: WindowOf, s: LadderState, kind: u8)
    requires s.Valid() && WireSize(kind).Some?
    ensures LadderApply(s, w, OpOf(Zeroed(kind))) == LadderOutcome(s, true) <==> Unfelt(s.orders, kind)
  {
    MapOpUnfeltIff(s.orders, kind);
    var op := OpOf(Zeroed(kind));
    if kind == U && 0 in s.orders {
      RoomExtends(s.grid, w, 0);
      var o := s.orders[0];
      var l := LadderApply(s, w, op);
      if o.price == 0 {
        assert s.grid.Covers(0) && s.grid.Aligned(0);
        assert l.state.orders == s.orders[0 := Order(0, 0, o.side)];
        assert l.state.orders[0] == Order(0, 0, o.side);
      } else if 0 in l.state.orders {
        assert l.state.orders[0].price == 0;
      }
    } else if (kind == A || kind == F) && 0 !in s.orders {
      var l := LadderApply(s, w, op);
      assert l.ok ==> 0 in l.state.orders;
    }
  }

  /** A frame of wrong length goes unnoticed by a builder exactly when its type is counted
      under its own letter, the book of locate 0 is there, and that book takes the zeroed
      message without a change. */
  lemma WrongLengthStep<B>(k: BookKind<B>, b: Build<B>, c: Call)
    requires |b.counts| == 256 && Mislabelled(c)
    ensures StepAlike(k, b, c) <==>
              var book := SlotOf(b.slots, 0);
              c.kind != F && book.Some? && k.apply(book.value, OpOf(Zeroed(c.kind))) == (book.value, true)
  {
    var m := Zeroed(c.kind);
    assert Unpacked(Packed(c)) == On(m);
    var direct, threaded := Handle(k, b, c), Handle(k, b, On(m));
    assert direct == Tallied(b, c.kind);
    if c.kind == F {
      assert threaded.counts[F] == b.counts[F] && direct.counts[F] == b.counts[F] + 1;
    } else if SlotOf(b.slots, 0).None? {
      assert SlotOf(threaded.slots, 0).Some?;
    } else {
      var x := SlotOf(b.slots, 0).value;
      var (y, ok) := k.apply(x, OpOf(m));
      assert WithBook(k, b.slots, 0, HintOf(m)) == b.slots;
      assert threaded.slots == b.slots[0 := Some(y)];
      if y == x {
        assert threaded.slots == b.slots;
      } else {
        assert threaded.slots[0] != b.slots[0];
      }
    }
  }

  function ContentsOf(s: Option<ValidLadder>): Option<Orders> {
    match s
    case None => None
    case Some(l) => Some(l.orders)
  }

  /** A call unchanged by the queue, given the resting orders of locate 0 at that time. */
  predicate Passes(c: Call, zero: Option<Orders>) {
    Mislabelled(c) ==> zero.Some? && Unfelt(zero.value, c.kind)
  }

  lemma MapStepIff(b: Build<Orders>, c: Call)
    requires |b.counts| == 256
    ensures StepAlike(MapKind(), b, c) <==> Passes(c, SlotOf(b.slots, 0))
  {
    if Mislabelled(c) {
      WrongLengthStep(MapKind(), b, c);
      var book := SlotOf(b.slots, 0);
      if book.Some? {
        MapOpUnfeltIff(book.value, c.kind);
      }
    } else {
      QueueIsTransparentIff(MapKind(), c);
    }
  }

  lemma LadderStepIff(w: WindowOf, b: Build<ValidLadder>, c: Call)
    requires |b.counts| == 256
    ensures StepAlike(LadderKind(w), b, c) <==> Passes(c, ContentsOf(SlotOf(b.slots, 0)))
  {
    if Mislabelled(c) {
      WrongLengthStep(LadderKind(w), b, c);
      var book := SlotOf(b.slots, 0);
      if book.Some? {
        LadderOpUnfeltIff(w, book.value, c.kind);
      }
    } else {
      QueueIsTransparentIff(LadderKind(w), c);
    }
  }

  /** Every frame of wrong length meets a book of locate 0 that it leaves unchanged. */
  ghost predicate MapsPass(cs: seq<Call>) {
    forall i | 0 <= i < |cs| :: Passes(cs[i], SlotOf(HandleAll(MapKind(), Fresh(), cs[..i]).slots, 0))
  }

  ghost predicate LaddersPass(w: WindowOf, cs: seq<Call>) {
    forall i | 0 <= i < |cs| ::
      Passes(cs[i], ContentsOf(SlotOf(HandleAll(LadderKind(w), Fresh(), cs[..i]).slots, 0)))
  }

  lemma MapsPassIff(cs: seq<Call>)
    ensures EveryStepAlike(MapKind(), cs) <==> MapsPass(cs)
  {
    forall i | 0 <= i < |cs|
      ensures AlikeAfter(MapKind(), cs[..i], cs[i])
              <==> Passes(cs[i], SlotOf(HandleAll(MapKind(), Fresh(), cs[..i]).slots, 0))
    {
      MapStepIff(HandleAll(MapKind(), Fresh(), cs[..i]), cs[i]);
    }
  }

  lemma LaddersPassIff(w: WindowOf, cs: seq<Call>)
    ensures EveryStepAlike(LadderKind(w), cs) <==> LaddersPass(w, cs)
  {
    forall i | 0 <= i < |cs|
      ensures AlikeAfter(LadderKind(w), cs[..i], cs[i])
              <==> Passes(cs[i], ContentsOf(SlotOf(HandleAll(LadderKind(w), Fresh(), cs[..i]).slots, 0)))
    {
      LadderStepIff(w, HandleAll(LadderKind(w), Fresh(), cs[..i]), cs[i]);
    }
  }

  /** The exact hypothesis for map books: threaded and direct replay hold the same builder
      after every call, in every reachable state of the threads, if and only if every frame
      of wrong length meets a book it leaves unchanged. */
  lemma MapReplaysAlikeIff(bits: nat, data: Bytes, s0: T.Sys<Envelope>)
    requires 1 <= bits <= 64 && T.Start(Pipeline(bits, data), s0)
    ensures AlwaysAlike(MapKind(), Calls(data)) <==> MapsPass(Calls(data))
    ensures AlwaysFollows(MapKind(), bits, data, s0) <==> MapsPass(Calls(data))
  {
    AlwaysAlikeIff(MapKind(), Calls(data));
    ThreadedFollowsSingleIff(MapKind(), bits, data, s0);
    MapsPassIff(Calls(data));
  }

  /** The same for ladder books. */
  lemma LadderReplaysAlikeIff(w: WindowOf, bits: nat, data: Bytes, s0: T.Sys<Envelope>)
    requires 1 <= bits <= 64 && T.Start(Pipeline(bits, data), s0)
    ensures AlwaysAlike(LadderKind(w), Calls(data)) <==> LaddersPass(w, Calls(data))
    ensures AlwaysFollows(LadderKind(w), bits, data, s0) <==> LaddersPass(w, Calls(data))
  {
    AlwaysAlikeIff(LadderKind(w), Calls(data));
    ThreadedFollowsSingleIff(LadderKind(w), bits, data, s0);
    LaddersPassIff(w, Calls(data));
  }

  /** Not every wrong length shows: once order 0 rests at locate 0, a cut 'X' frame cancels
      nothing of it. */
  lemma CutCancelIsUnfelt(side: Side, shares: u32, stock: Bytes, price: u32, len: nat)
    requires shares > 0
    ensures var cs := [On(AddOrder(ZERO, 0, side, shares, stock, price)), OnOther(X, len)];
            Mislabelled(cs[1]) && AlwaysAlike(MapKind(), cs)
  {
    var add := On(AddOrder(ZERO, 0, side, shares, stock, price));
    var cs := [add, OnOther(X, len)];
    MapsPassIff(cs);
    AlwaysAlikeIff(MapKind(), cs);
    assert cs[..1] == [add];
    OneCall(MapKind(), add);
    var slots := HandleAll(MapKind(), Fresh(), cs[..1]).slots;
    assert WithBook(MapKind(), [], 0, price) == [Some(map[])];
    assert slots == [Some(map[0 := Order(shares, price, side)])];
  }

  /** And the shortest one that does, in both kinds of book: a 'D' frame of length 1. */
  lemma CutDeleteDiffers(w: WindowOf)
    ensures var cs := Calls([0, 1, D]);
            && var t, d := HandleAll(MapKind(), Fresh(), UnpackedAll(PackedAll(cs))), HandleAll(MapKind(), Fresh(), cs);
               |t.slots| == 1 && t.unknownRefs == 1 && |d.slots| == 0 && d.unknownRefs == 0
    ensures var cs := Calls([0, 1, D]);
            && var t := HandleAll(LadderKind(w), Fresh(), UnpackedAll(PackedAll(cs)));
               var d := HandleAll(LadderKind(w), Fresh(), cs);
               |t.slots| == 1 && t.unknownRefs == 1 && |d.slots| == 0 && d.unknownRefs == 0
  {
    OneWrongLengthFrameDiffers(MapKind());
    OneWrongLengthFrameDiffers(LadderKind(w));
  }
}
