/** Sequence algebra. */
module Seqs {
  lemma Regroup<T>(x: seq<T>, y: seq<T>, z: seq<T>)
    ensures x + (y + z) == (x + y) + z
  {
  }

  lemma DropDrop<T>(s: seq<T>, n: nat, k: nat)
    requires n + k <= |s|
    ensures s[n..][k..] == s[n + k..]
  {
  }

  lemma DropOfConcat<T>(a: seq<T>, b: seq<T>, n: nat)
    requires n <= |a|
    ensures (a + b)[n..] == a[n..] + b
  {
  }

  lemma TakeOneMore<T>(s: seq<T>, n: nat)
    requires 1 <= n <= |s|
    ensures s[..n] == s[..n - 1] + [s[n - 1]]
  {
  }

  /** Something holds of every prefix exactly when it holds of every shorter one and of
      the whole. */
  lemma PrefixesSnoc<T>(p: seq<T> -> bool, s: seq<T>)
    requires s != []
    ensures (forall n | 0 <= n <= |s| :: p(s[..n]))
            <==> (var before := s[..|s| - 1]; forall n | 0 <= n <= |before| :: p(before[..n])) && p(s)
  {
    var before := s[..|s| - 1];
    assert s[..|s|] == s;
    forall n | 0 <= n <= |before|
      ensures before[..n] == s[..n]
    {
    }
  }

  lemma TakeSplit<T>(s: seq<T>, n: nat, k: nat)
    requires n <= k <= |s|
    ensures s[..n] + s[n..k] == s[..k]
  {
  }

  /** Something holds at every position, seen with what comes before it, exactly when it
      does at every earlier one and at the last. */
  lemma PositionsSnoc<T>(p: (seq<T>, T) -> bool, s: seq<T>)
    requires s != []
    ensures (forall i | 0 <= i < |s| :: p(s[..i], s[i]))
            <==> (var before := s[..|s| - 1];
                  && (forall i | 0 <= i < |before| :: p(before[..i], before[i])) && p(before, s[|s| - 1]))
  {
    var before := s[..|s| - 1];
    forall i | 0 <= i < |before|
      ensures before[..i] == s[..i]
    {
    }
  }
}
