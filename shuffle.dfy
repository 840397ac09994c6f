/** The swap sweep of `shuffle`: for each position `j` from the last down to the
    first, one draw `k` picks the record `j` trades places with. The random
    source is abstracted: `Draw` is the draw the source computes from one
    `random.random()` value, and the sweep itself takes the integer draws. */
module Shuffling {
  import opened Format

  /** `int(random.random() * j)` for a value `r = random.random()` in [0, 1). */
  function Draw(r: real, j: nat): (k: nat)
    requires 0.0 <= r < 1.0
    ensures j > 0 ==> k < j
    ensures j == 0 ==> k == 0
  {
    assert 0.0 <= r * j as real;
    assert j > 0 ==> r * j as real < j as real;
    (r * j as real).Floor
  }

  /** The draw of a uniform Fisher–Yates sweep, `int(random.random() * (j + 1))`. */
  function DrawFair(r: real, j: nat): (k: nat)
    requires 0.0 <= r < 1.0
    ensures k <= j
  {
    var x := r * (j + 1) as real;
    assert 0.0 <= x < (j + 1) as real;
    assert x.Floor as real <= x;
    x.Floor
  }

  /** Every position `k <= j` can be drawn by the fair draw. */
  lemma DrawFairReaches(j: nat, k: nat)
    requires k <= j
    ensures var r := k as real / (j + 1) as real;
      0.0 <= r < 1.0 && DrawFair(r, j) == k
  {
    var r := k as real / (j + 1) as real;
    assert r * (j + 1) as real == k as real;
  }

  /** The draw for position `j` never exceeds `j`. */
  predicate DrawsInRange(ks: seq<nat>)
  {
    forall j :: 0 <= j < |ks| ==> ks[j] <= j
  }

  predicate InUnitInterval(rs: seq<real>)
  {
    forall j :: 0 <= j < |rs| ==> 0.0 <= rs[j] < 1.0
  }

  /** The draws the source makes, one per position, from the values `rs`. */
  function AsWrittenDraws(rs: seq<real>): (ks: seq<nat>)
    requires InUnitInterval(rs)
    ensures |ks| == |rs| && DrawsInRange(ks)
    ensures forall j :: 0 <= j < |ks| ==> ks[j] == Draw(rs[j], j)
    ensures forall j :: 0 < j < |ks| ==> ks[j] < j
  {
    if rs == [] then []
    else
      var n := |rs| - 1;
      var front := AsWrittenDraws(rs[..n]);
      assert forall j :: 0 <= j < n ==> rs[..n][j] == rs[j];
      front + [Draw(rs[n], n)]
  }

  /** The draws of the uniform sweep. */
  function FairDraws(rs: seq<real>): (ks: seq<nat>)
    requires InUnitInterval(rs)
    ensures |ks| == |rs| && DrawsInRange(ks)
  {
    seq(|rs|, j requires 0 <= j < |rs| => DrawFair(rs[j], j))
  }

  /** One step of the sweep: records `j` and `k` trade places and nothing else
      moves; when `k == j` nothing is read or written. */
  function SwapStep(s: seq<Example>, j: nat, k: nat): (r: seq<Example>)
    requires j < |s| && k < |s|
    ensures |r| == |s|
  {
    if j == k then s else s[j := s[k]][k := s[j]]
  }

  /** Records `j` and `k` trade places and no other record moves. */
  lemma SwapStepAt(s: seq<Example>, j: nat, k: nat)
    requires j < |s| && k < |s|
    ensures var r := SwapStep(s, j, k);
      && r[j] == s[k] && r[k] == s[j]
      && forall i :: 0 <= i < |s| && i != j && i != k ==> r[i] == s[i]
  {
  }

  /** A swap is a permutation. */
  lemma SwapStepPermutes(s: seq<Example>, j: nat, k: nat)
    requires j < |s| && k < |s|
    ensures multiset(SwapStep(s, j, k)) == multiset(s)
  {
  }

  /** Exchanging records `j` and `k` of a record area whose first `n` records
      are live is the swap step on the live records, and leaves the rest and
      the record widths as they were. */
  lemma SwapWithin(t: seq<Example>, n: nat, j: nat, k: nat, features: nat)
    requires j < n && k < n && n <= |t| && PayloadsHaveWidth(t, features)
    ensures var t' := if j == k then t else t[k := t[j]][j := t[k]];
      && |t'| == |t| && t'[..n] == SwapStep(t[..n], j, k) && t'[n..] == t[n..]
      && PayloadsHaveWidth(t', features)
  {
    var t' := if j == k then t else t[k := t[j]][j := t[k]];
    assert forall i :: 0 <= i < n ==> t'[..n][i] == SwapStep(t[..n], j, k)[i];
  }

  /** One pass of the sweep loop on a record area whose first `n` records are
      live: after exchanging records `j` and `ks[j]` the steps still to do,
      for the positions below `j`, lead to the same result. */
  lemma SweepLoopStep(t: seq<Example>, n: nat, ks: seq<nat>, j: nat, features: nat, target: seq<Example>)
    requires j < n <= |t| && n <= |ks| && DrawsInRange(ks) && PayloadsHaveWidth(t, features)
    requires SweepFrom(t[..n], ks, j + 1) == target
    ensures var k := ks[j];
      var t' := if j == k then t else t[k := t[j]][j := t[k]];
      && |t'| == |t| && t'[n..] == t[n..] && PayloadsHaveWidth(t', features)
      && SweepFrom(t'[..n], ks, j) == target
  {
    SwapWithin(t, n, j, ks[j], features);
  }

  /** The steps for positions `m - 1` down to `0`, applied to `s`. */
  function SweepFrom(s: seq<Example>, ks: seq<nat>, m: nat): seq<Example>
    requires m <= |s| && m <= |ks| && DrawsInRange(ks)
    decreases m
  {
    if m == 0 then s else SweepFrom(SwapStep(s, m - 1, ks[m - 1]), ks, m - 1)
  }

  /** The whole sweep over all records. */
  function Shuffled(s: seq<Example>, ks: seq<nat>): seq<Example>
    requires |ks| == |s| && DrawsInRange(ks)
  {
    SweepFrom(s, ks, |s|)
  }

  /** The sweep is a permutation of the records. */
  lemma {:induction false} SweepPermutes(s: seq<Example>, ks: seq<nat>, m: nat)
    requires m <= |s| && m <= |ks| && DrawsInRange(ks)
    ensures |SweepFrom(s, ks, m)| == |s|
    ensures multiset(SweepFrom(s, ks, m)) == multiset(s)
    decreases m
  {
    if m > 0 {
      var s' := SwapStep(s, m - 1, ks[m - 1]);
      SwapStepPermutes(s, m - 1, ks[m - 1]);
      SweepPermutes(s', ks, m - 1);
      assert SweepFrom(s, ks, m) == SweepFrom(s', ks, m - 1);
    } else {
      assert SweepFrom(s, ks, m) == s;
    }
  }

  /** The steps for positions below `m` never touch positions `m` and above. */
  lemma {:induction false} SweepKeepsAbove(s: seq<Example>, ks: seq<nat>, m: nat, i: nat)
    requires m <= i < |s| && m <= |ks| && DrawsInRange(ks)
    ensures |SweepFrom(s, ks, m)| == |s| && SweepFrom(s, ks, m)[i] == s[i]
    decreases m
  {
    if m > 0 {
      var s' := SwapStep(s, m - 1, ks[m - 1]);
      assert s'[i] == s[i];
      SweepKeepsAbove(s', ks, m - 1, i);
      assert SweepFrom(s, ks, m) == SweepFrom(s', ks, m - 1);
    }
  }

  /** Shuffling keeps the multiset of records and their number. */
  lemma ShuffledPermutes(s: seq<Example>, ks: seq<nat>)
    requires |ks| == |s| && DrawsInRange(ks)
    ensures |Shuffled(s, ks)| == |s| && multiset(Shuffled(s, ks)) == multiset(s)
  {
    SweepPermutes(s, ks, |s|);
  }

  /** As the source draws, the last position always receives a record from a
      lower position: for two or more records the sweep can never leave the
      last record in place (Sattolo's algorithm, not Fisher–Yates). */
  lemma ShuffleAsWrittenMovesLast(s: seq<Example>, rs: seq<real>)
    requires |s| >= 2 && |rs| == |s| && InUnitInterval(rs)
    ensures var ks := AsWrittenDraws(rs);
      ks[|s| - 1] < |s| - 1 && |Shuffled(s, ks)| == |s| && Shuffled(s, ks)[|s| - 1] == s[ks[|s| - 1]]
  {
    var ks, n := AsWrittenDraws(rs), |s|;
    var s' := SwapStep(s, n - 1, ks[n - 1]);
    SweepKeepsAbove(s', ks, n - 1, n - 1);
  }

  /** The concrete consequence: two records are always exchanged. */
  lemma ShuffleAsWrittenSwapsPair(s: seq<Example>, rs: seq<real>)
    requires |s| == 2 && |rs| == 2 && InUnitInterval(rs)
    ensures Shuffled(s, AsWrittenDraws(rs)) == [s[1], s[0]]
  {
    var ks := AsWrittenDraws(rs);
    assert ks[1] == 0 && ks[0] == 0;
    var s1 := SwapStep(s, 1, 0);
    assert SweepFrom(s, ks, 2) == SweepFrom(s1, ks, 1);
    assert SweepFrom(s1, ks, 1) == SweepFrom(SwapStep(s1, 0, 0), ks, 0);
  }

  /** With the fair draw every position may keep its record: the values
      `j / (j + 1)` make the sweep the identity. */
  lemma ShuffleFairCanKeepOrder(s: seq<Example>)
    ensures var rs := seq(|s|, j requires 0 <= j => j as real / (j + 1) as real);
      InUnitInterval(rs) && Shuffled(s, FairDraws(rs)) == s
  {
    var rs := seq(|s|, j requires 0 <= j => j as real / (j + 1) as real);
    forall j | 0 <= j < |s| ensures 0.0 <= rs[j] < 1.0 && DrawFair(rs[j], j) == j {
      DrawFairReaches(j, j);
    }
    var ks := FairDraws(rs);
    IdentityDrawsKeep(s, ks, |s|);
  }

  lemma {:induction false} IdentityDrawsKeep(s: seq<Example>, ks: seq<nat>, m: nat)
    requires m <= |s| && m <= |ks| && forall j :: 0 <= j < |ks| ==> ks[j] == j
    ensures SweepFrom(s, ks, m) == s
    decreases m
  {
    if m > 0 {
      IdentityDrawsKeep(s, ks, m - 1);
    }
  }
}
