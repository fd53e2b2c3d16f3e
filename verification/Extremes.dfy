/** The greatest or least element of a finite set of numbers. */
module Extremes {
  ghost predicate IsBest(s: set<nat>, highest: bool, x: nat) {
    x in s && forall y | y in s :: if highest then y <= x else x <= y
  }

  lemma {:induction false} BestExists(s: set<nat>, highest: bool)
    requires s != {}
    ensures exists x :: IsBest(s, highest, x)
    decreases |s|
  {
    var x :| x in s;
    if s == {x} {
      assert IsBest(s, highest, x);
    } else {
      var rest := s - {x};
      BestExists(rest, highest);
      var y :| IsBest(rest, highest, y);
      var best: nat := if highest == (x < y) then y else x;
      forall z | z in s
        ensures if highest then z <= best else best <= z
      {
        assert z == x || z in rest;
      }
      assert IsBest(s, highest, best);
    }
  }
}
