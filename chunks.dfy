/** The bulk copies of `merge` and `split`: records move in chunks of `amount`
    records (the number of whole records in one block), followed by one last
    partial chunk. These functions give the sequence of records each operation
    moves, as the source computes the chunk offsets and as the design intends. */
module Chunking {
  import opened Format
  import opened Records

  /** Chunks `0 .. k - 1` of `o`, each `amount` records long, in order. */
  function Chunks(o: seq<Example>, amount: nat, k: nat): (r: seq<Example>)
    requires k * amount <= |o|
    decreases k
  {
    if k == 0 then []
    else
      MulPred(k, amount);
      Chunks(o, amount, k - 1) + o[(k - 1) * amount .. k * amount]
  }

  /** Consecutive chunks from the start are the prefix they cover. */
  lemma {:induction false} ChunksPrefix(o: seq<Example>, amount: nat, k: nat)
    requires k * amount <= |o|
    ensures Chunks(o, amount, k) == o[..k * amount]
    decreases k
  {
    if k > 0 {
      MulPred(k, amount);
      ChunksPrefix(o, amount, k - 1);
      assert o[..k * amount] == o[..(k - 1) * amount] + o[(k - 1) * amount .. k * amount];
    }
  }

  /** What `merge` reads from the other dataset: `|o| / amount` whole chunks,
      then the `|o| % amount` remaining records starting at record
      `remStart`. */
  function MergeReads(o: seq<Example>, amount: nat, remStart: nat): (r: seq<Example>)
    requires amount > 0 && remStart + |o| % amount <= |o|
  {
    var it, rem := |o| / amount, |o| % amount;
    DivMod(|o|, amount);
    Chunks(o, amount, it) + if rem > 0 then o[remStart .. remStart + rem] else []
  }

  /** The source reads the last partial chunk from record `iterations`, the
      number of whole chunks, rather than from the chunk boundary. That read
      always stays within the other dataset. */
  function MergeAsWritten(o: seq<Example>, amount: nat): (r: seq<Example>)
    requires amount > 0
    ensures |r| == |o|
  {
    var it := |o| / amount;
    DivMod(|o|, amount);
    MulMonotone(1, amount, it);
    ChunksPrefix(o, amount, it);
    MergeReads(o, amount, it)
  }

  /** Chunk `i` of the whole chunks of `n` records ends inside them. */
  lemma ChunkStep(i: nat, iterations: nat, amount: nat)
    requires i < iterations
    ensures (i + 1) * amount == i * amount + amount <= iterations * amount
  {
    MulMonotone(i + 1, iterations, amount);
  }

  /** What `merge` appends, spelled out: the prefix covered by the whole
      chunks, then the `|o| % amount` records from record `|o| / amount`. */
  lemma MergeAsWrittenShape(o: seq<Example>, amount: nat)
    requires amount > 0
    ensures 0 <= |o| / amount && (|o| / amount) * amount <= |o| && |o| / amount + |o| % amount <= |o|
    ensures (|o| / amount) * amount + |o| % amount == |o|
    ensures MergeAsWritten(o, amount) == o[..(|o| / amount) * amount] +
      if |o| % amount > 0 then o[|o| / amount .. |o| / amount + |o| % amount] else []
  {
    var it := |o| / amount;
    ChunkCounts(|o|, amount);
    ChunksPrefix(o, amount, it);
  }

  /** Whole chunks and the remainder split a count exactly. */
  lemma ChunkCounts(n: nat, amount: nat)
    requires amount > 0
    ensures 0 <= n / amount && (n / amount) * amount <= n && n / amount + n % amount <= n
    ensures (n / amount) * amount + n % amount == n
  {
    DivMod(n, amount);
    DivBounds(n, amount);
    MulMonotone(1, amount, n / amount);
  }

  /** The intended copy: the partial chunk starts where the whole chunks end. */
  function MergeIntended(o: seq<Example>, amount: nat): seq<Example>
    requires amount > 0
  {
    DivMod(|o|, amount);
    MergeReads(o, amount, (|o| / amount) * amount)
  }

  /** The intended copy moves every record of the other dataset, in order. */
  lemma MergeIntendedCopies(o: seq<Example>, amount: nat)
    requires amount > 0
    ensures MergeIntended(o, amount) == o
  {
    var it := |o| / amount;
    DivMod(|o|, amount);
    ChunksPrefix(o, amount, it);
    assert o == o[..it * amount] + o[it * amount ..];
  }

  /** As written, the copy is faithful exactly when the records at `iterations`
      happen to equal the last partial chunk. */
  lemma MergeAsWrittenIff(o: seq<Example>, amount: nat)
    requires amount > 0
    ensures var it, rem := |o| / amount, |o| % amount;
      it + rem <= |o| && it * amount + rem == |o| &&
      (MergeAsWritten(o, amount) == o <==> o[it .. it + rem] == o[it * amount ..])
  {
    MergeAsWrittenShape(o, amount);
    var it, rem := |o| / amount, |o| % amount;
    var tail := if rem > 0 then o[it .. it + rem] else [];
    assert tail == o[it .. it + rem];
    PrefixThenIff(o, it * amount, tail);
  }

  /** A prefix of `o` followed by `tail` is `o` exactly when `tail` is the
      rest of `o`. */
  lemma PrefixThenIff(o: seq<Example>, w: nat, tail: seq<Example>)
    requires w <= |o|
    ensures o[..w] + tail == o <==> tail == o[w..]
  {
    assert o == o[..w] + o[w..];
    if o[..w] + tail == o {
      assert tail == (o[..w] + tail)[w..];
    }
  }

  /** With fewer records than one chunk, or a whole number of chunks, the copy
      as written is faithful. */
  lemma MergeAsWrittenAligned(o: seq<Example>, amount: nat)
    requires amount > 0 && (|o| < amount || |o| % amount == 0)
    ensures MergeAsWritten(o, amount) == o
  {
    MergeAsWrittenIff(o, amount);
    if |o| < amount {
      DivModUnique(|o|, amount, 0, |o|);
    }
  }

  /** With one whole chunk and one record more, the record at position 1 is
      copied a second time in place of the last record. */
  lemma MergeAsWrittenDuplicates(o: seq<Example>, amount: nat)
    requires amount >= 2 && |o| == amount + 1 && o[1] != o[amount]
    ensures MergeAsWritten(o, amount) == o[..amount] + [o[1]]
    ensures MergeAsWritten(o, amount) != o
  {
    DivModUnique(|o|, amount, 1, 1);
    ChunksPrefix(o, amount, 1);
    var r := MergeAsWritten(o, amount);
    assert r == o[..amount] + o[1 .. 2];
    assert r[amount] == o[1];
  }

  /** `int(n * ratio)`: the number of records `split` is asked to move. */
  function SplitCount(n: nat, ratio: real): (m: nat)
    requires 0.0 <= ratio
    ensures ratio <= 1.0 ==> m <= n
    ensures ratio == 0.0 ==> m == 0
  {
    var x := n as real * ratio;
    assert 0.0 <= x;
    assert ratio <= 1.0 ==> x <= n as real;
    assert x.Floor as real <= x;
    x.Floor
  }

  /** Chunks taken one after the other from the end: each is the last `amount`
      records of what is left once the previous ones are gone. */
  function TailChunks(s: seq<Example>, amount: nat, k: nat): (r: seq<Example>)
    decreases k
  {
    if k == 0 || |s| < amount then []
    else s[|s| - amount ..] + TailChunks(s[..|s| - amount], amount, k - 1)
  }

  lemma {:induction false} TailChunksLength(s: seq<Example>, amount: nat, k: nat)
    requires k * amount <= |s|
    ensures |TailChunks(s, amount, k)| == k * amount
    decreases k
  {
    if k > 0 {
      MulPred(k, amount);
      TailChunksLength(s[..|s| - amount], amount, k - 1);
    }
  }

  /** Taking one chunk more from the end appends the chunk in front of those
      already taken (`t` stands for `k * amount`). */
  lemma {:induction false} TailChunksSnoc(s: seq<Example>, amount: nat, k: nat, t: nat)
    requires t == k * amount && t + amount <= |s|
    ensures (k + 1) * amount == t + amount
    ensures TailChunks(s, amount, k + 1) == TailChunks(s, amount, k) + s[|s| - t - amount .. |s| - t]
    decreases k
  {
    MulPred(k + 1, amount);
    if k > 0 {
      MulPred(k, amount);
      TailChunksSnoc(s[..|s| - amount], amount, k - 1, t - amount);
      SnocRegroup(s, amount, k, t);
    } else {
      assert s[|s| - amount ..] == s[|s| - t - amount .. |s| - t];
    }
  }

  /** The step of `TailChunksSnoc`: the claim for the first `|s| - amount`
      records and `k - 1` chunks gives it for `s` and `k` chunks (`t`, the
      length of `k` chunks, is at least one chunk). */
  lemma SnocRegroup(s: seq<Example>, amount: nat, k: nat, t: nat)
    requires k > 0 && amount <= t && t + amount <= |s|
    requires var s' := s[..|s| - amount];
      TailChunks(s', amount, k) == TailChunks(s', amount, k - 1) + s'[|s'| - t .. |s'| - (t - amount)]
    ensures TailChunks(s, amount, k + 1) == TailChunks(s, amount, k) + s[|s| - t - amount .. |s| - t]
  {
    var s' := s[..|s| - amount];
    var last, a := s[|s| - amount ..], TailChunks(s', amount, k - 1);
    var chunk := s[|s| - t - amount .. |s| - t];
    assert |s'| - t == |s| - t - amount && |s'| - (t - amount) == |s| - t;
    assert s'[|s'| - t .. |s'| - (t - amount)] == chunk;
    assert TailChunks(s, amount, k) == last + a;
    assert TailChunks(s, amount, k + 1) == last + TailChunks(s', amount, k);
    assert last + (a + chunk) == (last + a) + chunk;
  }

  /** Moving the last `amount` of the first `|s| - done` records behind the
      chunks already moved extends them by one chunk. */
  lemma TailMove(s: seq<Example>, o: seq<Example>, amount: nat, i: nat, done: nat)
    requires done == i * amount && done + amount <= |s|
    ensures var front := s[..|s| - done];
      && o + TailChunks(s, amount, i) + front[|front| - amount ..] == o + TailChunks(s, amount, i + 1)
      && front[..|front| - amount] == s[..|s| - (done + amount)]
  {
    var p := |s| - done;
    TailChunksSnoc(s, amount, i, done);
    TakeTail(s, p, amount);
    assert s[..p][..p - amount] == s[..p - amount];
  }

  /** The tail chunks are the last `k * amount` records, as a multiset. */
  lemma TailChunksMultiset(s: seq<Example>, amount: nat, k: nat)
    requires k * amount <= |s|
    ensures |TailChunks(s, amount, k)| == k * amount
    ensures multiset(TailChunks(s, amount, k)) == multiset(s[|s| - k * amount ..])
  {
    TailChunksLength(s, amount, k);
    TailChunksBag(s, amount, k, k * amount);
  }

  lemma {:induction false} TailChunksBag(s: seq<Example>, amount: nat, k: nat, m: nat)
    requires m == k * amount && m <= |s|
    ensures multiset(TailChunks(s, amount, k)) == multiset(s[|s| - m ..])
    decreases k
  {
    if k > 0 {
      MulPred(k, amount);
      MulMonotone(0, k - 1, amount);
      var t: nat := m - amount;
      var front := s[..|s| - amount];
      TailChunksBag(front, amount, k - 1, t);
      TailChunksLength(front, amount, k - 1);
      var rest := TailChunks(front, amount, k - 1);
      assert TailChunks(s, amount, k) == s[|s| - amount ..] + rest;
      assert |front| - t == |s| - amount - t;
      TailStep(s, amount, t, rest);
    } else {
      assert m == 0 && s[|s| - m ..] == [];
    }
  }


  /** One more chunk from the end extends the multiset by that chunk. */
  lemma TailStep(s: seq<Example>, amount: nat, t: nat, rest: seq<Example>)
    requires t + amount <= |s| && |rest| == t
    requires multiset(rest) == multiset(s[..|s| - amount][|s| - amount - t ..])
    ensures |s[|s| - amount ..] + rest| == t + amount
    ensures multiset(s[|s| - amount ..] + rest) == multiset(s[|s| - (t + amount) ..])
  {
    var x, y := s[..|s| - amount][|s| - amount - t ..], s[|s| - amount ..];
    assert s[|s| - (t + amount) ..] == x + y;
  }

  /** What remains in the dataset after `split` moves `it` whole chunks and then
      `rem` more records from the end. */
  function SplitKept(s: seq<Example>, amount: nat, it: nat, rem: nat): (r: seq<Example>)
    requires it * amount + rem <= |s|
    ensures |r| == |s| - it * amount - rem && r == s[..|r|]
  {
    s[..|s| - it * amount - rem]
  }

  /** The records `split` appends to the other dataset, in the order it writes
      them. */
  function SplitMoved(s: seq<Example>, amount: nat, it: nat, rem: nat): (r: seq<Example>)
    requires it * amount + rem <= |s|
  {
    var left := s[..|s| - it * amount];
    TailChunks(s, amount, it) + if rem > 0 then left[|left| - rem ..] else []
  }

  /** The records `split` has moved once the partial chunk follows the whole
      ones, and the records it then keeps. */
  lemma SplitMovedParts(s: seq<Example>, o: seq<Example>, amount: nat, it: nat, rem: nat, whole: nat)
    requires whole == it * amount && whole + rem <= |s|
    ensures var left := s[..|s| - whole];
      && left[..|left| - rem] == s[..|s| - (whole + rem)]
      && o + TailChunks(s, amount, it) + (if rem > 0 then left[|left| - rem ..] else [])
         == o + SplitMoved(s, amount, it, rem)
  {
    var left := s[..|s| - whole];
    assert left[..|left| - rem] == s[..|s| - (whole + rem)];
  }

  /** `split` moves the last `it * amount + rem` records (as a multiset) and
      keeps the records before them in place. */
  lemma SplitShape(s: seq<Example>, amount: nat, it: nat, rem: nat, m: nat)
    requires it * amount + rem == m && m <= |s|
    ensures |SplitMoved(s, amount, it, rem)| == m
    ensures SplitKept(s, amount, it, rem) == s[..|s| - m]
    ensures multiset(SplitMoved(s, amount, it, rem)) == multiset(s[|s| - m ..])
  {
    var t := it * amount;
    TailChunksLength(s, amount, it);
    TailChunksBag(s, amount, it, t);
    var left := s[..|s| - t];
    var tc, last := TailChunks(s, amount, it), left[|left| - rem ..];
    assert SplitMoved(s, amount, it, rem) == tc + last;
    assert s[|s| - m ..] == last + s[|s| - t ..];
  }

  /** `split` loses nothing and invents nothing: what is kept and what is moved
      together are the original records. */
  lemma SplitConserves(s: seq<Example>, amount: nat, it: nat, rem: nat)
    requires it * amount + rem <= |s|
    ensures |SplitKept(s, amount, it, rem)| + |SplitMoved(s, amount, it, rem)| == |s|
    ensures multiset(SplitKept(s, amount, it, rem)) + multiset(SplitMoved(s, amount, it, rem)) == multiset(s)
  {
    var m := it * amount + rem;
    SplitShape(s, amount, it, rem, m);
    assert s == s[..|s| - m] + s[|s| - m ..];
  }

  /** The split as the source computes it: `|s| / amount` whole chunks
      regardless of `ratio`, then `int(|s| * ratio) % amount` records; the
      requires keeps the last read inside the dataset, which the source does
      not check. */
  predicate SplitAsWrittenInRange(n: nat, amount: nat, ratio: real)
    requires amount > 0 && 0.0 <= ratio
  {
    SplitCount(n, ratio) % amount <= n % amount
  }

  function SplitAsWrittenMoved(s: seq<Example>, amount: nat, ratio: real): (r: seq<Example>)
    requires amount > 0 && 0.0 <= ratio && SplitAsWrittenInRange(|s|, amount, ratio)
    ensures |r| == (|s| / amount) * amount + SplitCount(|s|, ratio) % amount <= |s|
  {
    SplitAsWrittenBy(s, amount, SplitCount(|s|, ratio))
  }

  /** The records the split as written moves once `count = int(|s| * ratio)`
      is known: every whole chunk of the dataset, then `count % amount`. */
  function SplitAsWrittenBy(s: seq<Example>, amount: nat, count: nat): (r: seq<Example>)
    requires amount > 0 && count % amount <= |s| % amount
    ensures |r| == (|s| / amount) * amount + count % amount <= |s|
  {
    SplitAsWrittenParts(s, amount, count);
    SplitMoved(s, amount, |s| / amount, count % amount)
  }

  /** The two counts of the split as written: the whole chunks fit in the
      dataset, and the partial count fits in what they leave. */
  lemma SplitAsWrittenParts(s: seq<Example>, amount: nat, count: nat)
    requires amount > 0 && count % amount <= |s| % amount
    ensures var it, rem := |s| / amount, count % amount;
      && 0 <= it && 0 <= it * amount <= |s| && rem <= |s| - it * amount
      && |SplitMoved(s, amount, it, rem)| == it * amount + rem
  {
    DivMod(|s|, amount);
    var it, rem := |s| / amount, count % amount;
    MergeAsWrittenShape(s, amount);
    TailChunksMultiset(s, amount, it);
  }

  /** Even with `ratio == 0`, as written `split` moves every whole chunk: a
      dataset of at least one chunk loses at least `amount` records. */
  lemma SplitAsWrittenIgnoresRatio(s: seq<Example>, amount: nat)
    requires amount > 0 && |s| >= amount
    ensures SplitAsWrittenInRange(|s|, amount, 0.0)
    ensures |SplitAsWrittenMoved(s, amount, 0.0)| >= amount
    ensures SplitCount(|s|, 0.0) == 0
  {
    DivIsLargest(|s|, amount, 1);
    MulMonotone(1, |s| / amount, amount);
  }

  /** The count of whole chunks as written also makes the last read leave
      the dataset: with 2049 records of 2047 features (chunks of 2048) and
      ratio 0.5, one whole chunk moves and leaves one record, and the
      partial count `int(2049 * 0.5) % 2048 == 1024` then starts its read at
      record `1 - 1024`, before the first record. */
  lemma SplitAsWrittenLeavesRange()
    ensures ChunkCapacity(2047) == 2048 && SplitCount(2049, 0.5) == 1024
    ensures !SplitAsWrittenInRange(2049, 2048, 0.5)
    ensures 2049 - (2049 / 2048) * 2048 < SplitCount(2049, 0.5) % 2048
  {
    assert 2049 as real * 0.5 == 1024.5;
    assert (1024.5).Floor == 1024;
  }

  /** The intended split: `int(|s| * ratio)` records in all, the whole chunks
      of that count first. */
  function SplitIntendedMoved(s: seq<Example>, amount: nat, ratio: real): seq<Example>
    requires amount > 0 && 0.0 <= ratio <= 1.0
  {
    var m := SplitCount(|s|, ratio);
    DivMod(m, amount);
    SplitMoved(s, amount, m / amount, m % amount)
  }

  function SplitIntendedKept(s: seq<Example>, amount: nat, ratio: real): seq<Example>
    requires amount > 0 && 0.0 <= ratio <= 1.0
  {
    var m := SplitCount(|s|, ratio);
    DivMod(m, amount);
    SplitKept(s, amount, m / amount, m % amount)
  }

  /** The intended split moves exactly `int(|s| * ratio)` records, those at the
      end, and keeps the rest in place. */
  lemma SplitIntendedMovesCount(s: seq<Example>, amount: nat, ratio: real)
    requires amount > 0 && 0.0 <= ratio <= 1.0
    ensures var m := SplitCount(|s|, ratio);
      && |SplitIntendedMoved(s, amount, ratio)| == m
      && SplitIntendedKept(s, amount, ratio) == s[..|s| - m]
      && multiset(SplitIntendedMoved(s, amount, ratio)) == multiset(s[|s| - m ..])
  {
    var m := SplitCount(|s|, ratio);
    DivMod(m, amount);
    SplitShape(s, amount, m / amount, m % amount, m);
  }

  /** With fewer records than one chunk the split as written is the intended
      one: the last `int(|s| * ratio)` records move, in their order. */
  lemma SplitAsWrittenSmall(s: seq<Example>, amount: nat, ratio: real)
    requires amount > 0 && 0.0 <= ratio <= 1.0 && |s| < amount
    ensures SplitAsWrittenInRange(|s|, amount, ratio)
    ensures var m := SplitCount(|s|, ratio);
      SplitAsWrittenMoved(s, amount, ratio) == SplitIntendedMoved(s, amount, ratio) == s[|s| - m ..]
  {
    var m := SplitCount(|s|, ratio);
    DivModUnique(|s|, amount, 0, |s|);
    DivModUnique(m, amount, 0, m);
  }
}
