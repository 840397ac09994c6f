/** `balance`: a counting pass builds one counter per category value from 0 to
    the largest seen; then, walking back from the end of the file, records of
    categories that still have a surplus are discarded and the others are
    set aside, and the set-aside records are written back after the point the
    walk reached. */
module Balancing {
  import opened Format
  import opened Records

  /** How many records have category `c`. */
  function Count(s: seq<Example>, c: nat): (n: nat)
    ensures n <= |s|
  {
    if s == [] then 0
    else Count(s[..|s| - 1], c) + if s[|s| - 1].category as nat == c then 1 else 0
  }

  lemma {:induction false} CountAppend(a: seq<Example>, b: seq<Example>, c: nat)
    ensures Count(a + b, c) == Count(a, c) + Count(b, c)
    decreases |b|
  {
    if b == [] {
      assert a + b == a;
    } else {
      assert (a + b)[..|a + b| - 1] == a + b[..|b| - 1];
      CountAppend(a, b[..|b| - 1], c);
    }
  }

  /** A category that occurs has a record that carries it. */
  lemma {:induction false} CountPositive(s: seq<Example>, c: nat)
    requires Count(s, c) > 0
    ensures exists i :: 0 <= i < |s| && s[i].category as nat == c
  {
    if s[|s| - 1].category as nat != c {
      CountPositive(s[..|s| - 1], c);
      var i :| 0 <= i < |s| - 1 && s[..|s| - 1][i].category as nat == c;
      assert s[i] == s[..|s| - 1][i];
    }
  }

  /** A record's category occurs. */
  lemma {:induction false} CountMember(s: seq<Example>, i: nat)
    requires i < |s|
    ensures Count(s, s[i].category as nat) > 0
  {
    if i < |s| - 1 {
      CountMember(s[..|s| - 1], i);
      assert s[..|s| - 1][i] == s[i];
    }
  }

  /** One more occurrence of category `c` in the table of counters: the table
      grows with zero counters until it has a slot for `c`. */
  function Bump(cats: seq<nat>, c: nat): (r: seq<nat>)
    ensures |r| == if c < |cats| then |cats| else c + 1
  {
    var grown := if c < |cats| then cats else cats + seq(c + 1 - |cats|, _ => 0);
    grown[c := grown[c] + 1]
  }

  /** Counter `c` goes up by one, a missing counter counting as zero, and
      every other counter keeps its value. */
  lemma BumpAt(cats: seq<nat>, c: nat)
    ensures var r := Bump(cats, c);
      && r[c] == (if c < |cats| then cats[c] else 0) + 1
      && forall i :: 0 <= i < |r| && i != c ==> r[i] == if i < |cats| then cats[i] else 0
  {
  }

  /** The table the counting pass builds. */
  function Tally(s: seq<Example>): (cats: seq<nat>)
  {
    if s == [] then [] else Bump(Tally(s[..|s| - 1]), s[|s| - 1].category as nat)
  }

  /** The table has one counter per category value from 0 to the largest one
      present, and each counter is the number of records with that value. */
  lemma {:induction false} TallyCounts(s: seq<Example>)
    ensures |Tally(s)| == 0 <==> s == []
    ensures forall i :: 0 <= i < |s| ==> s[i].category as nat < |Tally(s)|
    ensures s != [] ==> exists i :: 0 <= i < |s| && s[i].category as nat == |Tally(s)| - 1
    ensures forall c :: 0 <= c < |Tally(s)| ==> Tally(s)[c] == Count(s, c)
  {
    if s != [] {
      var front, c := s[..|s| - 1], s[|s| - 1].category as nat;
      TallyCounts(front);
      var t := Tally(front);
      BumpAt(t, c);
      forall i | 0 <= i < |s| ensures s[i].category as nat < |Tally(s)| {
        if i < |s| - 1 {
          assert s[i] == front[i];
        }
      }
      if c < |t| {
        var i :| 0 <= i < |front| && front[i].category as nat == |t| - 1;
        assert s[i] == front[i];
      }
      forall c' | |t| <= c'
        ensures Count(front, c') == 0
      {
        if Count(front, c') > 0 {
          CountPositive(front, c');
        }
      }
    }
  }

  function Sum(s: seq<nat>): nat
  {
    if s == [] then 0 else Sum(s[..|s| - 1]) + s[|s| - 1]
  }

  /** The sum is zero exactly when every counter is zero. */
  lemma {:induction false} SumZero(s: seq<nat>)
    ensures Sum(s) == 0 <==> forall i :: 0 <= i < |s| ==> s[i] == 0
  {
    if s != [] {
      SumZero(s[..|s| - 1]);
      if Sum(s) == 0 {
        forall i | 0 <= i < |s| ensures s[i] == 0 {
          if i < |s| - 1 {
            assert s[i] == s[..|s| - 1][i];
          }
        }
      }
    }
  }

  /** `min(cats)`. */
  function Min(s: seq<nat>): (m: nat)
    requires s != []
    ensures forall i :: 0 <= i < |s| ==> m <= s[i]
    ensures exists i :: 0 <= i < |s| && m == s[i]
  {
    if |s| == 1 then s[0]
    else
      var m := Min(s[..|s| - 1]);
      assert forall i :: 0 <= i < |s| - 1 ==> s[..|s| - 1][i] == s[i];
      if s[|s| - 1] < m then s[|s| - 1] else m
  }

  /** `[x - minval for x in cats]`. */
  function Subtract(cats: seq<nat>, m: nat): (d: seq<nat>)
    requires forall i :: 0 <= i < |cats| ==> m <= cats[i]
    ensures |d| == |cats| && forall i :: 0 <= i < |d| ==> d[i] + m == cats[i]
  {
    seq(|cats|, i requires 0 <= i < |cats| => cats[i] - m)
  }

  /** The deficits may be discarded from `s`: every category has at least as
      many records as its deficit, and every record has a counter. */
  predicate Discardable(s: seq<Example>, d: seq<nat>)
  {
    && (forall i :: 0 <= i < |s| ==> s[i].category as nat < |d|)
    && (forall c :: 0 <= c < |d| ==> d[c] <= Count(s, c))
  }

  lemma SurplusLeft(s: seq<Example>, d: seq<nat>)
    requires Discardable(s, d) && Sum(d) != 0
    ensures s != []
  {
    SumZero(d);
    var c :| 0 <= c < |d| && d[c] != 0;
  }

  /** The backward walk: `live` is what is still in front of the walk, `d` the
      surplus still to discard and `stored` the records set aside so far, in
      the order the walk met them. It stops when no surplus is left: the result
      is what remains in front of it and what was set aside. */
  function ScanBack(live: seq<Example>, d: seq<nat>, stored: seq<Example>): (r: (seq<Example>, seq<Example>))
    requires Discardable(live, d)
    decreases |live|
  {
    if Sum(d) == 0 then (live, stored)
    else
      SurplusLeft(live, d);
      var front, e := live[..|live| - 1], live[|live| - 1];
      var c := e.category as nat;
      assert live == front + [e];
      assert forall c' :: 0 <= c' < |d| ==> Count(live, c') == Count(front, c') + if c' == c then 1 else 0;
      if d[c] == 0 then ScanBack(front, d, stored + [e])
      else ScanBack(front, d[c := d[c] - 1], stored)
  }

  /** One step of the walk: while surplus is left there is a last record, it
      has a counter, and the walk goes on in front of it, either with that
      record set aside (its counter is at zero) or with its counter lowered. */
  lemma ScanBackStep(live: seq<Example>, d: seq<nat>, stored: seq<Example>)
    requires Discardable(live, d) && Sum(d) != 0
    ensures live != [] && live[|live| - 1].category as nat < |d|
    ensures StepOn(live, d, stored)
  {
    SurplusLeft(live, d);
    var front, e := live[..|live| - 1], live[|live| - 1];
    var c := e.category as nat;
    var d' := if d[c] == 0 then d else d[c := d[c] - 1];
    var stored' := if d[c] == 0 then stored + [e] else stored;
    forall c' | 0 <= c' < |d'| ensures d'[c'] <= Count(front, c') {
      CountLast(live, c');
    }
    assert Discardable(front, d');
    assert ScanBack(live, d, stored) == ScanBack(front, d', stored');
  }

  /** `ScanBackStep` for a walk over the first `n` slots of a record area:
      the step's new surplus and set-aside records, stated for the next
      pass of the loop. */
  lemma WalkStep(slots: seq<Example>, n: nat, d: seq<nat>, stored: seq<Example>, features: nat,
                 target: (seq<Example>, seq<Example>))
    requires n <= |slots| && PayloadsHaveWidth(slots, features) && PayloadsHaveWidth(stored, features)
    requires Discardable(slots[..n], d) && Sum(d) != 0 && ScanBack(slots[..n], d, stored) == target
    ensures n > 0 && slots[n - 1].category as nat < |d|
    ensures var e := slots[n - 1];
      var c := e.category as nat;
      d[c] == 0 ==>
        && Discardable(slots[..n - 1], d) && ScanBack(slots[..n - 1], d, stored + [e]) == target
        && PayloadsHaveWidth(stored + [e], features)
    ensures var c := slots[n - 1].category as nat;
      d[c] != 0 ==>
        Discardable(slots[..n - 1], d[c := d[c] - 1]) && ScanBack(slots[..n - 1], d[c := d[c] - 1], stored) == target
  {
    var live := slots[..n];
    ScanBackStep(live, d, stored);
    assert live[..|live| - 1] == slots[..n - 1] && live[|live| - 1] == slots[n - 1];
  }

  /** What `ScanBackStep` establishes, for a walk that can take a step. */
  predicate StepOn(live: seq<Example>, d: seq<nat>, stored: seq<Example>)
    requires Discardable(live, d) && Sum(d) != 0 && live != [] && live[|live| - 1].category as nat < |d|
  {
    var e := live[|live| - 1];
    var c := e.category as nat;
    var d' := if d[c] == 0 then d else d[c := d[c] - 1];
    var stored' := if d[c] == 0 then stored + [e] else stored;
    Discardable(live[..|live| - 1], d') && ScanBack(live, d, stored) == ScanBack(live[..|live| - 1], d', stored')
  }

  function Reverse(s: seq<Example>): (r: seq<Example>)
    ensures |r| == |s|
  {
    if s == [] then [] else [s[|s| - 1]] + Reverse(s[..|s| - 1])
  }

  /** `a` is `b` with some elements left out. */
  predicate IsSubsequence(a: seq<Example>, b: seq<Example>)
    decreases |b|
  {
    if a == [] then true
    else if b == [] then false
    else (a[0] == b[0] && IsSubsequence(a[1..], b[1..])) || IsSubsequence(a, b[1..])
  }

  /** Removing the last record takes one occurrence of its category away. */
  lemma CountLast(s: seq<Example>, c: nat)
    requires s != []
    ensures Count(s, c) == Count(s[..|s| - 1], c) + if s[|s| - 1].category as nat == c then 1 else 0
  {
  }

  /** Appending one record adds one occurrence of its category. */
  lemma CountSnoc(s: seq<Example>, e: Example, c: nat)
    ensures Count(s + [e], c) == Count(s, c) + if e.category as nat == c then 1 else 0
  {
    assert (s + [e])[..|s + [e]| - 1] == s;
  }

  /** The walk stops in front of a prefix of the records it started from, and
      what it sets aside follows what was already set aside and is the walked
      suffix read backwards with the discarded records left out. */
  lemma {:induction false} ScanBackOrder(live: seq<Example>, d: seq<nat>, stored: seq<Example>)
    requires Discardable(live, d)
    ensures var (front, kept) := ScanBack(live, d, stored);
      && |front| <= |live| && front == live[..|front|]
      && |stored| <= |kept| && kept[..|stored|] == stored
      && IsSubsequence(kept[|stored|..], Reverse(live[|front|..]))
    decreases |live|
  {
    var (front, kept) := ScanBack(live, d, stored);
    if Sum(d) == 0 {
      assert live[|front|..] == [];
    } else {
      ScanBackStep(live, d, stored);
      var front', e := live[..|live| - 1], live[|live| - 1];
      var c := e.category as nat;
      var d' := if d[c] == 0 then d else d[c := d[c] - 1];
      var stored' := if d[c] == 0 then stored + [e] else stored;
      assert StepOn(live, d, stored);
      assert (front, kept) == ScanBack(front', d', stored');
      ScanBackOrder(front', d', stored');
      OrderStep(live, front, kept, stored, stored', d[c] == 0);
    }
  }

  /** The step of `ScanBackOrder`: what holds after the walk in front of the
      last record `e` holds for the walk that starts by passing `e` (kept
      when `keep`, dropped otherwise). */
  lemma OrderStep(live: seq<Example>, front: seq<Example>, kept: seq<Example>, stored: seq<Example>,
                  stored': seq<Example>, keep: bool)
    requires live != [] && stored' == if keep then stored + [live[|live| - 1]] else stored
    requires var front' := live[..|live| - 1];
      && |front| <= |front'| && front == front'[..|front|]
      && |stored'| <= |kept| && kept[..|stored'|] == stored'
      && IsSubsequence(kept[|stored'|..], Reverse(front'[|front|..]))
    ensures |front| <= |live| && front == live[..|front|]
    ensures |stored| <= |kept| && kept[..|stored|] == stored
    ensures IsSubsequence(kept[|stored|..], Reverse(live[|front|..]))
  {
    var front', e := live[..|live| - 1], live[|live| - 1];
    assert live[|front|..] == front'[|front|..] + [e];
    assert Reverse(live[|front|..])[1..] == Reverse(front'[|front|..]);
    if keep {
      assert kept[..|stored|] == kept[..|stored'|][..|stored|];
      assert kept[|stored|..][1..] == kept[|stored'|..];
    }
  }

  /** Everything the walk sets aside has a counter. */
  lemma {:induction false} ScanBackCategories(live: seq<Example>, d: seq<nat>, stored: seq<Example>)
    requires Discardable(live, d)
    requires forall i :: 0 <= i < |stored| ==> stored[i].category as nat < |d|
    ensures var (front, kept) := ScanBack(live, d, stored);
      forall i :: 0 <= i < |kept| ==> kept[i].category as nat < |d|
    decreases |live|
  {
    var (front, kept) := ScanBack(live, d, stored);
    if Sum(d) != 0 {
      ScanBackStep(live, d, stored);
      var front', e := live[..|live| - 1], live[|live| - 1];
      var c := e.category as nat;
      var d' := if d[c] == 0 then d else d[c := d[c] - 1];
      var stored' := if d[c] == 0 then stored + [e] else stored;
      assert StepOn(live, d, stored);
      assert (front, kept) == ScanBack(front', d', stored');
      assert forall i :: 0 <= i < |stored'| ==> stored'[i].category as nat < |d'|;
      ScanBackCategories(front', d', stored');
    }
  }

  /** Each category `c` loses exactly `d[c]` records to the walk. */
  lemma {:induction false} ScanBackCounts(live: seq<Example>, d: seq<nat>, stored: seq<Example>)
    requires Discardable(live, d)
    ensures var (front, kept) := ScanBack(live, d, stored);
      forall c :: 0 <= c < |d| ==> Count(front, c) + Count(kept, c) + d[c] == Count(live, c) + Count(stored, c)
    decreases |live|
  {
    var (front, kept) := ScanBack(live, d, stored);
    if Sum(d) == 0 {
      SumZero(d);
    } else {
      ScanBackStep(live, d, stored);
      var front', e := live[..|live| - 1], live[|live| - 1];
      var c := e.category as nat;
      var d' := if d[c] == 0 then d else d[c := d[c] - 1];
      var stored' := if d[c] == 0 then stored + [e] else stored;
      assert StepOn(live, d, stored);
      assert (front, kept) == ScanBack(front', d', stored');
      ScanBackCounts(front', d', stored');
      forall c' | 0 <= c' < |d|
        ensures Count(front, c') + Count(kept, c') + d[c'] == Count(live, c') + Count(stored, c')
      {
        CountLast(live, c');
        CountSnoc(stored, e, c');
      }
    }
  }

  /** The records in front of the walk followed by the records set aside: what
      `balance` leaves live. */
  function BalanceWith(s: seq<Example>, d: seq<nat>): (r: seq<Example>)
    requires Discardable(s, d)
  {
    var (front, kept) := ScanBack(s, d, []);
    front + kept
  }

  /** `balance` as the source computes it: deficits against `min(cats)`, taken
      over every counter, including those of category values below the largest
      that never occur. */
  function BalanceAsWritten(s: seq<Example>): seq<Example>
  {
    var cats := Tally(s);
    if |cats| == 0 || |cats| == 1 then s
    else
      TallyCounts(s);
      BalanceWith(s, Subtract(cats, Min(cats)))
  }

  /** Whatever surplus is discarded, the result keeps a prefix of the records
      and has, for each category, the count less its deficit. */
  lemma BalanceWithCounts(s: seq<Example>, d: seq<nat>)
    requires Discardable(s, d)
    ensures var r := BalanceWith(s, d);
      && (forall i :: 0 <= i < |r| ==> r[i].category as nat < |d|)
      && (forall c :: 0 <= c < |d| ==> Count(r, c) + d[c] == Count(s, c))
      && exists m :: 0 <= m <= |s| && m <= |r| && r[..m] == s[..m]
                  && IsSubsequence(r[m..], Reverse(s[m..]))
  {
    var (front, kept) := ScanBack(s, d, []);
    ScanBackOrder(s, d, []);
    ScanBackCategories(s, d, []);
    ScanBackCounts(s, d, []);
    var r := front + kept;
    forall c | 0 <= c < |d| ensures Count(r, c) + d[c] == Count(s, c) {
      CountAppend(front, kept, c);
    }
    assert r[..|front|] == s[..|front|];
    assert r[|front|..] == kept[0..];
  }

  /** After `balance` (with at least two counters), every category value from
      0 to the largest has exactly `min(cats)` records, and no other value
      occurs. */
  lemma BalanceAsWrittenEqualizes(s: seq<Example>)
    requires |Tally(s)| >= 2
    ensures var cats, r := Tally(s), BalanceAsWritten(s);
      && (forall i :: 0 <= i < |r| ==> r[i].category as nat < |cats|)
      && forall c :: 0 <= c < |cats| ==> Count(r, c) == Min(cats)
  {
    var cats := Tally(s);
    TallyCounts(s);
    BalanceWithCounts(s, Subtract(cats, Min(cats)));
  }

  /** With one counter or none, `balance` changes nothing. */
  lemma BalanceAsWrittenTrivial(s: seq<Example>)
    requires |Tally(s)| <= 1
    ensures BalanceAsWritten(s) == s
  {
  }

  /** A record set of nothing but categories with zero count is empty. */
  lemma NoneLeft(r: seq<Example>, n: nat)
    requires forall i :: 0 <= i < |r| ==> r[i].category as nat < n
    requires forall c :: 0 <= c < n ==> Count(r, c) == 0
    ensures r == []
  {
    if r != [] {
      CountMember(r, 0);
    }
  }

  /** Because the minimum is taken over every counter, when some category value
      below the largest does not occur the minimum is zero and `balance`
      discards every record. */
  lemma BalanceAsWrittenEmptiesOnGap(s: seq<Example>, c: nat)
    requires c < |Tally(s)| && Tally(s)[c] == 0
    ensures BalanceAsWritten(s) == []
  {
    TallyCounts(s);
    var cats := Tally(s);
    assert Min(cats) == 0;
    BalanceAsWrittenEqualizes(s);
    NoneLeft(BalanceAsWritten(s), |cats|);
  }

  /** The concrete case: one record of category 0 and one of category 2. */
  lemma BalanceAsWrittenGapExample()
    ensures BalanceAsWritten([Example(0, []), Example(2, [])]) == []
  {
    var s := [Example(0, []), Example(2, [])];
    assert s[..1] == [Example(0, [])];
    assert Tally(s[..1]) == [1];
    assert Tally(s) == [1, 0, 1];
    BalanceAsWrittenEmptiesOnGap(s, 1);
  }

  /** The smallest counter among the categories that occur. */
  function MinPresent(cats: seq<nat>): (m: nat)
    requires exists i :: 0 <= i < |cats| && cats[i] > 0
    ensures m > 0
    ensures forall i :: 0 <= i < |cats| && cats[i] > 0 ==> m <= cats[i]
    ensures exists i :: 0 <= i < |cats| && m == cats[i]
    decreases |cats|
  {
    var last := cats[|cats| - 1];
    var front := cats[..|cats| - 1];
    assert forall i :: 0 <= i < |front| ==> front[i] == cats[i];
    if exists i :: 0 <= i < |front| && front[i] > 0 then
      var m := MinPresent(front);
      if 0 < last < m then last else m
    else last
  }

  /** The deficits the design intends: a category that does not occur has
      nothing to discard, the others are brought down to the least populated. */
  function IntendedDeficits(cats: seq<nat>): (d: seq<nat>)
    requires exists i :: 0 <= i < |cats| && cats[i] > 0
    ensures |d| == |cats|
    ensures forall c :: 0 <= c < |d| ==> d[c] == if cats[c] == 0 then 0 else cats[c] - MinPresent(cats)
  {
    var m := MinPresent(cats);
    seq(|cats|, i requires 0 <= i < |cats| => if cats[i] == 0 then 0 else cats[i] - m)
  }

  /** `balance` as the design describes it. */
  function BalanceIntended(s: seq<Example>): seq<Example>
  {
    var cats := Tally(s);
    if |cats| == 0 || |cats| == 1 then s
    else
      TallyCounts(s);
      CountMember(s, 0);
      BalanceWith(s, IntendedDeficits(cats))
  }

  /** With the intended deficits every category present keeps exactly as many
      records as the least populated one, absent ones stay absent, and the
      result is empty only when the input was. */
  lemma BalanceIntendedEqualizes(s: seq<Example>)
    requires |Tally(s)| >= 2
    ensures var cats, r := Tally(s), BalanceIntended(s);
      && (forall i :: 0 <= i < |r| ==> r[i].category as nat < |cats|)
      && (forall c :: 0 <= c < |cats| ==> Count(r, c) == if Count(s, c) == 0 then 0 else MinPresent(cats))
      && r != []
  {
    var cats := Tally(s);
    TallyCounts(s);
    CountMember(s, 0);
    var d := IntendedDeficits(cats);
    BalanceWithCounts(s, d);
    var c0 := s[0].category as nat;
    assert Count(BalanceIntended(s), c0) > 0;
  }
}
