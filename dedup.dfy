/** `deduplicate`: a hashing pass visits the records chunk by chunk, collects
    the payload hashes seen so far and queues (in a min-heap) the index of every
    record whose payload hash was seen before; a removal pass then pops the
    queued indices, smallest first, and for each one moves the last live record
    into that slot. The hash function is a parameter. */
module Dedup {
  import opened Format
  import opened Records

  /** `range(lo, hi)`. */
  function Range(lo: nat, hi: nat): (r: seq<nat>)
    requires lo <= hi
    ensures |r| == hi - lo && forall i :: 0 <= i < |r| ==> r[i] == lo + i
    decreases hi - lo
  {
    if lo == hi then [] else [lo] + Range(lo + 1, hi)
  }

  lemma RangeAppend(a: nat, b: nat, c: nat)
    requires a <= b <= c
    ensures Range(a, b) + Range(b, c) == Range(a, c)
  {
    assert forall i :: 0 <= i < c - a ==> (Range(a, b) + Range(b, c))[i] == a + i;
  }

  predicate Sorted(q: seq<nat>)
  {
    forall i, j :: 0 <= i < j < |q| ==> q[i] <= q[j]
  }

  /** `heapq.heappush`. The heap is kept as the ascending list of its
      elements, so that `heapq.heappop` is its first element. */
  function Insert(q: seq<nat>, x: nat): (r: seq<nat>)
    requires Sorted(q)
    ensures |r| == |q| + 1 && Sorted(r)
    ensures multiset(r) == multiset(q) + multiset{x}
  {
    if q == [] || x <= q[0] then [x] + q
    else
      var rest := Insert(q[1..], x);
      InsertBehindHead(q, x, rest);
      [q[0]] + rest
  }

  /** Putting the head of `q` back in front of `x` inserted into the rest of
      `q` keeps the order. */
  lemma InsertBehindHead(q: seq<nat>, x: nat, rest: seq<nat>)
    requires Sorted(q) && q != [] && q[0] < x
    requires Sorted(rest) && multiset(rest) == multiset(q[1..]) + multiset{x}
    ensures Sorted([q[0]] + rest) && multiset([q[0]] + rest) == multiset(q) + multiset{x}
  {
    assert q == [q[0]] + q[1..];
    forall j | 0 <= j < |rest| ensures q[0] <= rest[j] {
      assert rest[j] in multiset(rest);
    }
  }

  /** Pushing an index larger than every queued one appends it. */
  lemma {:induction false} InsertLargest(q: seq<nat>, x: nat)
    requires Sorted(q) && forall i :: 0 <= i < |q| ==> q[i] < x
    ensures Insert(q, x) == q + [x]
  {
    if q != [] {
      InsertLargest(q[1..], x);
    }
  }

  /** The hashing pass over the records at positions `idx`, in that order:
      `seen` is the set of hashes met so far and `q` the queue of indices to
      remove. */
  function Sweep<H(==)>(s: seq<Example>, idx: seq<nat>, hash: seq<byte> -> H, seen: set<H>, q: seq<nat>): (r: (set<H>, seq<nat>))
    requires forall i :: 0 <= i < |idx| ==> idx[i] < |s|
    requires Sorted(q)
    ensures Sorted(r.1)
    decreases |idx|
  {
    if idx == [] then (seen, q)
    else
      var h := hash(s[idx[0]].payload);
      if h in seen then Sweep(s, idx[1..], hash, seen, Insert(q, idx[0]))
      else Sweep(s, idx[1..], hash, seen + {h}, q)
  }

  /** Every visit either adds a new hash or queues an index. */
  lemma {:induction false} SweepCount<H>(s: seq<Example>, idx: seq<nat>, hash: seq<byte> -> H, seen: set<H>, q: seq<nat>)
    requires forall i :: 0 <= i < |idx| ==> idx[i] < |s|
    requires Sorted(q)
    ensures var (seen', q') := Sweep(s, idx, hash, seen, q);
      seen <= seen' && |seen'| + |q'| == |seen| + |q| + |idx|
    decreases |idx|
  {
    if idx != [] {
      var h := hash(s[idx[0]].payload);
      if h in seen {
        SweepCount(s, idx[1..], hash, seen, Insert(q, idx[0]));
      } else {
        SweepCount(s, idx[1..], hash, seen + {h}, q);
      }
    }
  }

  /** Visiting `a` then `b` is visiting `a + b`. */
  lemma {:induction false} SweepAppend<H>(s: seq<Example>, a: seq<nat>, b: seq<nat>, hash: seq<byte> -> H, seen: set<H>, q: seq<nat>)
    requires forall i :: 0 <= i < |a| ==> a[i] < |s|
    requires forall i :: 0 <= i < |b| ==> b[i] < |s|
    requires Sorted(q)
    ensures forall i :: 0 <= i < |a + b| ==> (a + b)[i] < |s|
    ensures var (seen', q') := Sweep(s, a, hash, seen, q);
      Sweep(s, a + b, hash, seen, q) == Sweep(s, b, hash, seen', q')
    decreases |a|
  {
    if a == [] {
      assert a + b == b;
    } else {
      assert (a + b)[0] == a[0] && (a + b)[1..] == a[1..] + b;
      var h := hash(s[a[0]].payload);
      if h in seen {
        SweepAppend(s, a[1..], b, hash, seen, Insert(q, a[0]));
      } else {
        SweepAppend(s, a[1..], b, hash, seen + {h}, q);
      }
    }
  }

  /** The hashes of the first `n` payloads. */
  function HashesOf<H(==)>(s: seq<Example>, hash: seq<byte> -> H, n: nat): (hs: set<H>)
    requires n <= |s|
  {
    if n == 0 then {} else HashesOf(s, hash, n - 1) + {hash(s[n - 1].payload)}
  }

  lemma {:induction false} HashesOfIff<H>(s: seq<Example>, hash: seq<byte> -> H, n: nat, h: H)
    requires n <= |s|
    ensures h in HashesOf(s, hash, n) <==> exists j :: 0 <= j < n && hash(s[j].payload) == h
  {
    if n > 0 {
      HashesOfIff(s, hash, n - 1, h);
    }
  }

  /** Record `i` repeats the payload hash of an earlier record. */
  predicate Repeats<H(==)>(s: seq<Example>, hash: seq<byte> -> H, i: nat)
    requires i < |s|
  {
    hash(s[i].payload) in HashesOf(s, hash, i)
  }

  /** The indices below `n` of the repeated records, ascending. */
  function Flagged<H(==)>(s: seq<Example>, hash: seq<byte> -> H, n: nat): (f: seq<nat>)
    requires n <= |s|
    ensures |f| <= n && Sorted(f)
    ensures forall k :: 0 <= k < |f| ==> f[k] < n
  {
    if n == 0 then []
    else Flagged(s, hash, n - 1) + if Repeats(s, hash, n - 1) then [n - 1] else []
  }

  /** The indices below `n` of the first occurrences, ascending. */
  function Firsts<H(==)>(s: seq<Example>, hash: seq<byte> -> H, n: nat): (f: seq<nat>)
    requires n <= |s|
    ensures |f| <= n
    ensures forall k :: 0 <= k < |f| ==> f[k] < n
  {
    if n == 0 then []
    else Firsts(s, hash, n - 1) + if Repeats(s, hash, n - 1) then [] else [n - 1]
  }

  /** An index is flagged exactly when an earlier record has a payload with
      the same hash. */
  lemma {:induction false} FlaggedIff<H>(s: seq<Example>, hash: seq<byte> -> H, n: nat, i: nat)
    requires n <= |s|
    ensures i in Flagged(s, hash, n) <==> i < n && exists j :: 0 <= j < i && hash(s[j].payload) == hash(s[i].payload)
  {
    if n > 0 {
      FlaggedIff(s, hash, n - 1, i);
      if i == n - 1 {
        HashesOfIff(s, hash, i, hash(s[i].payload));
      }
    }
  }

  /** The records at positions `f` have pairwise different payload hashes. */
  predicate HashesDistinct<H(==)>(s: seq<Example>, hash: seq<byte> -> H, f: seq<nat>)
    requires forall k :: 0 <= k < |f| ==> f[k] < |s|
  {
    forall k, l :: 0 <= k < l < |f| ==> hash(s[f[k]].payload) != hash(s[f[l]].payload)
  }

  /** The payload hash of record `i` is that of a record at one of the
      positions `f`. */
  predicate HashCovered<H(==)>(s: seq<Example>, hash: seq<byte> -> H, f: seq<nat>, i: nat)
    requires i < |s| && forall k :: 0 <= k < |f| ==> f[k] < |s|
  {
    exists k :: 0 <= k < |f| && hash(s[f[k]].payload) == hash(s[i].payload)
  }

  /** The first occurrences have pairwise different payload hashes. */
  lemma {:induction false} FirstsDistinct<H>(s: seq<Example>, hash: seq<byte> -> H, n: nat)
    requires n <= |s|
    ensures HashesDistinct(s, hash, Firsts(s, hash, n))
  {
    if n > 0 {
      FirstsDistinct(s, hash, n - 1);
      var f, f' := Firsts(s, hash, n), Firsts(s, hash, n - 1);
      if Repeats(s, hash, n - 1) {
        assert f == f';
        assert |f| == |f'| && forall k :: 0 <= k < |f| ==> f[k] == f'[k];
      } else {
        assert f == f' + [n - 1];
        forall k | 0 <= k < |f'| ensures hash(s[f'[k]].payload) != hash(s[n - 1].payload) {
          HashesOfIff(s, hash, n - 1, hash(s[n - 1].payload));
        }
        forall k, l | 0 <= k < l < |f| ensures hash(s[f[k]].payload) != hash(s[f[l]].payload) {
          assert f[k] == f'[k];
          if l < |f'| {
            assert f[l] == f'[l];
          } else {
            assert f[l] == n - 1;
          }
        }
      }
    }
  }

  /** Every payload hash among the first `n` records is the hash of a first
      occurrence. */
  lemma {:induction false} FirstsCover<H>(s: seq<Example>, hash: seq<byte> -> H, n: nat)
    requires n <= |s|
    ensures forall i :: 0 <= i < n ==> HashCovered(s, hash, Firsts(s, hash, n), i)
  {
    if n > 0 {
      FirstsCover(s, hash, n - 1);
      var f, f' := Firsts(s, hash, n), Firsts(s, hash, n - 1);
      var extra := if Repeats(s, hash, n - 1) then [] else [n - 1];
      assert f == f' + extra;
      forall i | 0 <= i < n
        ensures HashCovered(s, hash, f, i)
      {
        if i < n - 1 {
          assert HashCovered(s, hash, f', i);
          var k :| 0 <= k < |f'| && hash(s[f'[k]].payload) == hash(s[i].payload);
          assert f[k] == f'[k];
        } else if Repeats(s, hash, n - 1) {
          HashesOfIff(s, hash, n - 1, hash(s[n - 1].payload));
          var j :| 0 <= j < n - 1 && hash(s[j].payload) == hash(s[n - 1].payload);
          assert HashCovered(s, hash, f', j);
          var k :| 0 <= k < |f'| && hash(s[f'[k]].payload) == hash(s[j].payload);
          assert f[k] == f'[k];
        } else {
          assert f[|f| - 1] == n - 1;
        }
      }
    }
  }

  /** The records at the given positions. */
  function Pick(s: seq<Example>, q: seq<nat>): (r: seq<Example>)
    requires forall k :: 0 <= k < |q| ==> q[k] < |s|
    ensures |r| == |q| && forall k :: 0 <= k < |q| ==> r[k] == s[q[k]]
  {
    seq(|q|, k requires 0 <= k < |q| => s[q[k]])
  }

  lemma PickSnoc(s: seq<Example>, q: seq<nat>, i: nat)
    requires i < |s| && forall k :: 0 <= k < |q| ==> q[k] < |s|
    ensures Pick(s, q + [i]) == Pick(s, q) + [s[i]]
  {
  }

  /** The first `n` records are the repeated ones together with the first
      occurrences, as a multiset. */
  lemma {:induction false} FlaggedPartition<H>(s: seq<Example>, hash: seq<byte> -> H, n: nat)
    requires n <= |s|
    ensures multiset(s[..n]) == multiset(Pick(s, Flagged(s, hash, n))) + multiset(Pick(s, Firsts(s, hash, n)))
  {
    if n > 0 {
      FlaggedPartition(s, hash, n - 1);
      PartitionStep(s, n, Flagged(s, hash, n - 1), Firsts(s, hash, n - 1), Flagged(s, hash, n), Firsts(s, hash, n),
                    Repeats(s, hash, n - 1));
    } else {
      assert Pick(s, Flagged(s, hash, 0)) == [] && Pick(s, Firsts(s, hash, 0)) == [];
    }
  }

  /** Record `n - 1` joins either the repeated records (`rep`) or the first
      occurrences. */
  lemma PartitionStep(s: seq<Example>, n: nat, fl: seq<nat>, fi: seq<nat>, fl': seq<nat>, fi': seq<nat>, rep: bool)
    requires 0 < n <= |s| && (forall k :: 0 <= k < |fl| ==> fl[k] < |s|) && (forall k :: 0 <= k < |fi| ==> fi[k] < |s|)
    requires fl' == (if rep then fl + [n - 1] else fl) && fi' == (if rep then fi else fi + [n - 1])
    requires multiset(s[..n - 1]) == multiset(Pick(s, fl)) + multiset(Pick(s, fi))
    ensures multiset(s[..n]) == multiset(Pick(s, fl')) + multiset(Pick(s, fi'))
  {
    assert s[..n] == s[..n - 1] + [s[n - 1]];
    if rep {
      SnocJoins(s, s[..n - 1], fl, fi, n - 1);
    } else {
      SnocJoins(s, s[..n - 1], fi, fl, n - 1);
    }
  }

  /** When `all` splits into the records at `q` and at `other`, one record
      more splits with its index added to `q`. */
  lemma SnocJoins(s: seq<Example>, all: seq<Example>, q: seq<nat>, other: seq<nat>, i: nat)
    requires i < |s| && (forall k :: 0 <= k < |q| ==> q[k] < |s|) && (forall k :: 0 <= k < |other| ==> other[k] < |s|)
    requires multiset(all) == multiset(Pick(s, q)) + multiset(Pick(s, other))
    ensures multiset(all + [s[i]]) == multiset(Pick(s, q + [i])) + multiset(Pick(s, other))
    ensures multiset(all + [s[i]]) == multiset(Pick(s, other)) + multiset(Pick(s, q + [i]))
  {
    PickSnoc(s, q, i);
    BagRegroup(all, Pick(s, q), Pick(s, other), s[i]);
  }

  /** Adding one record to a split of the records adds it to one side. */
  lemma BagRegroup(all: seq<Example>, a: seq<Example>, b: seq<Example>, x: Example)
    requires multiset(all) == multiset(a) + multiset(b)
    ensures multiset(all + [x]) == multiset(a + [x]) + multiset(b)
    ensures multiset(all + [x]) == multiset(b) + multiset(a + [x])
  {
  }

  /** Visiting `m .. n - 1` after the first `m` records extends the
      hashes and the queue to the first `n` records. */
  lemma {:induction false} SweepRange<H>(s: seq<Example>, hash: seq<byte> -> H, m: nat, n: nat)
    requires m <= n <= |s|
    ensures Sweep(s, Range(m, n), hash, HashesOf(s, hash, m), Flagged(s, hash, m))
         == (HashesOf(s, hash, n), Flagged(s, hash, n))
    decreases n - m
  {
    if m < n {
      SweepStep(s, hash, m, n);
      SweepRange(s, hash, m + 1, n);
    } else {
      assert Range(m, n) == [];
    }
  }

  /** Visiting record `m` moves the state from the first `m` records to the
      first `m + 1`. */
  lemma SweepStep<H>(s: seq<Example>, hash: seq<byte> -> H, m: nat, n: nat)
    requires m < n <= |s|
    ensures Sweep(s, Range(m, n), hash, HashesOf(s, hash, m), Flagged(s, hash, m))
         == Sweep(s, Range(m + 1, n), hash, HashesOf(s, hash, m + 1), Flagged(s, hash, m + 1))
  {
    var h := hash(s[m].payload);
    var r := Range(m, n);
    assert r[0] == m && r[1..] == Range(m + 1, n);
    var hs, fl := HashesOf(s, hash, m), Flagged(s, hash, m);
    if h in hs {
      InsertLargest(fl, m);
      assert Insert(fl, m) == Flagged(s, hash, m + 1);
      assert HashesOf(s, hash, m + 1) == hs;
    } else {
      assert fl == Flagged(s, hash, m + 1);
      assert HashesOf(s, hash, m + 1) == hs + {h};
    }
  }

  /** Visiting `a .. c - 1` is visiting `a .. b - 1`, then `b .. c - 1`. */
  lemma SweepRanges<H>(s: seq<Example>, hash: seq<byte> -> H, a: nat, b: nat, c: nat, seen: set<H>, q: seq<nat>)
    requires a <= b <= c <= |s| && Sorted(q)
    ensures var (seen', q') := Sweep(s, Range(a, b), hash, seen, q);
      Sweep(s, Range(a, c), hash, seen, q) == Sweep(s, Range(b, c), hash, seen', q')
  {
    RangeAppend(a, b, c);
    SweepAppend(s, Range(a, b), Range(b, c), hash, seen, q);
  }

  /** One more chunk `done .. done + ce - 1` of the hashing pass. */
  lemma SweepChunkStep<H>(s: seq<Example>, hash: seq<byte> -> H, done: nat, ce: nat,
                          hashes: set<H>, q: seq<nat>, hashes': set<H>, q': seq<nat>)
    requires done + ce <= |s| && (hashes, q) == Sweep(s, Range(0, done), hash, {}, [])
    requires (hashes', q') == Sweep(s, Range(done, done + ce), hash, hashes, q)
    ensures (hashes', q') == Sweep(s, Range(0, done + ce), hash, {}, [])
  {
    SweepRanges(s, hash, 0, done, done + ce, {}, []);
  }

  /** The order the hashing pass visits `n` records in chunks of `ce`: all
      whole chunks, then the `n % ce` remaining ones from `remStart` on. */
  function VisitOrder(n: nat, ce: nat, remStart: nat): (v: seq<nat>)
    requires ce > 0 && remStart + n % ce <= n
    ensures |v| == n && forall i :: 0 <= i < |v| ==> v[i] < n
  {
    var w, rem := (n / ce) * ce, n % ce;
    assert w + rem == n;
    Range(0, w) + if rem > 0 then Range(remStart, remStart + rem) else []
  }

  /** The source reads the remainder chunk at `chunk_index * remainder`, where
      `chunk_index` is the number of whole chunks, instead of at the chunk
      boundary. */
  function AsWrittenRemStart(n: nat, ce: nat): (start: nat)
    requires ce > 0
    ensures start + n % ce <= n
  {
    var chunks, rem := n / ce, n % ce;
    assert chunks * ce + rem == n;
    MulMonotone(rem, ce, chunks);
    chunks * rem
  }

  /** The queue the source builds. */
  function ScanAsWritten<H(==)>(s: seq<Example>, ce: nat, hash: seq<byte> -> H): (q: seq<nat>)
    requires ce > 0
    ensures Sorted(q) && |q| <= |s|
  {
    var v := VisitOrder(|s|, ce, AsWrittenRemStart(|s|, ce));
    SweepCount(s, v, hash, {}, []);
    Sweep(s, v, hash, {}, []).1
  }

  /** The queue the design intends: every record visited once, in order
      (the remainder read at the chunk boundary, see `VisitOrderIntended`). */
  function ScanIntended<H(==)>(s: seq<Example>, hash: seq<byte> -> H): (q: seq<nat>)
  {
    Sweep(s, Range(0, |s|), hash, {}, []).1
  }

  /** The pass as written, spelled out: the whole chunks in order, then the
      `|s| % ce` records from record `(|s| / ce) * (|s| % ce)` on. */
  lemma ScanAsWrittenParts<H>(s: seq<Example>, ce: nat, hash: seq<byte> -> H)
    requires ce > 0
    ensures var chunks, rem := |s| / ce, |s| % ce;
      && chunks * ce + rem == |s| && chunks * rem + rem <= |s|
      && (var (seen, q) := Sweep(s, Range(0, chunks * ce), hash, {}, []);
          ScanAsWritten(s, ce, hash)
            == if rem > 0 then Sweep(s, Range(chunks * rem, chunks * rem + rem), hash, seen, q).1 else q)
  {
    DivMod(|s|, ce);
    var w, rem := (|s| / ce) * ce, |s| % ce;
    var start := AsWrittenRemStart(|s|, ce);
    var tail := if rem > 0 then Range(start, start + rem) else [];
    assert VisitOrder(|s|, ce, start) == Range(0, w) + tail;
    SweepAppend(s, Range(0, w), tail, hash, {}, []);
    if rem == 0 {
      assert Range(0, w) + tail == Range(0, w);
    }
  }

  /** The intended pass queues exactly the repeated records. */
  lemma ScanIntendedFlags<H>(s: seq<Example>, hash: seq<byte> -> H)
    ensures ScanIntended(s, hash) == Flagged(s, hash, |s|)
  {
    SweepRange(s, hash, 0, |s|);
  }

  /** Reading the remainder at the chunk boundary visits every record once,
      in order. */
  lemma VisitOrderIntended(n: nat, ce: nat)
    requires ce > 0
    ensures (n / ce) * ce + n % ce == n
    ensures VisitOrder(n, ce, (n / ce) * ce) == Range(0, n)
  {
    DivMod(n, ce);
    var w, rem := (n / ce) * ce, n % ce;
    RangeAppend(0, w, n);
    assert VisitOrder(n, ce, w) == Range(0, w) + if rem > 0 then Range(w, w + rem) else [];
    if rem == 0 {
      assert Range(0, w) + [] == Range(0, w);
    }
  }

  /** With fewer records than one chunk, or a whole number of chunks, the
      remainder is read at the chunk boundary anyway. */
  lemma AsWrittenRemStartAligned(n: nat, ce: nat)
    requires ce > 0 && (n < ce || n % ce == 0)
    ensures VisitOrder(n, ce, AsWrittenRemStart(n, ce)) == VisitOrder(n, ce, (n / ce) * ce)
  {
    if n < ce {
      DivModUnique(n, ce, 0, n);
    }
  }

  /** With fewer records than one chunk, or a whole number of chunks, the
      pass as written is the intended one. */
  lemma ScanAsWrittenAligned<H>(s: seq<Example>, ce: nat, hash: seq<byte> -> H)
    requires ce > 0 && (|s| < ce || |s| % ce == 0)
    ensures ScanAsWritten(s, ce, hash) == Flagged(s, hash, |s|)
  {
    AsWrittenRemStartAligned(|s|, ce);
    VisitOrderIntended(|s|, ce);
    ScanIntendedFlags(s, hash);
  }

  /** With one whole chunk and one record more, all payloads different, the
      pass as written visits record 1 twice and queues it for removal although
      it is unique. */
  lemma ScanAsWrittenFlagsUnique<H>(s: seq<Example>, ce: nat, hash: seq<byte> -> H)
    requires ce >= 2 && |s| == ce + 1
    requires forall i, j :: 0 <= i < j < |s| ==> hash(s[i].payload) != hash(s[j].payload)
    ensures ScanAsWritten(s, ce, hash) == [1]
    ensures Flagged(s, hash, |s|) == []
  {
    var n := |s|;
    DivModUnique(n, ce, 1, 1);
    assert AsWrittenRemStart(n, ce) == 1;
    var v := VisitOrder(n, ce, 1);
    assert v == Range(0, ce) + Range(1, 2);
    NoneFlagged(s, hash, n);
    NoneFlagged(s, hash, ce);
    SweepRange(s, hash, 0, ce);
    SweepAppend(s, Range(0, ce), Range(1, 2), hash, {}, []);
    HashesOfIff(s, hash, ce, hash(s[1].payload));
    var hs := HashesOf(s, hash, ce);
    assert Sweep(s, Range(0, ce), hash, {}, []) == (hs, []);
    assert Range(1, 2) == [1];
    assert Sweep(s, [1], hash, hs, []) == Sweep(s, [], hash, hs, Insert([], 1));
  }

  lemma {:induction false} NoneFlagged<H>(s: seq<Example>, hash: seq<byte> -> H, m: nat)
    requires m <= |s|
    requires forall i, j :: 0 <= i < j < |s| ==> hash(s[i].payload) != hash(s[j].payload)
    ensures Flagged(s, hash, m) == []
  {
    if m > 0 {
      NoneFlagged(s, hash, m - 1);
      HashesOfIff(s, hash, m - 1, hash(s[m - 1].payload));
      assert !Repeats(s, hash, m - 1);
    } else {
      assert Flagged(s, hash, m) == [];
    }
  }

  /** One pop of the removal loop on the record area `slots` with `examples`
      live records: the popped index is the last live slot, so the file is
      cut by one record; otherwise the last live record is read, the file is
      cut by one record and that record is written at the popped index (past
      the new end, the gap reads as zero records). */
  function RemoveAt(slots: seq<Example>, examples: nat, index: nat, zero: Example): (r: (seq<Example>, nat))
    requires 0 < examples <= |slots|
    ensures r.1 == examples - 1 && r.1 <= |r.0|
    ensures index == examples - 1 ==> r.0 == slots[..examples - 1]
    ensures index < examples - 1 ==> r.0 == slots[..examples - 1][index := slots[examples - 1]]
    ensures index > examples - 1 ==>
      |r.0| == index + 1 && r.0[..examples - 1] == slots[..examples - 1] && r.0[index] == slots[examples - 1]
  {
    if index == examples - 1 then (slots[..examples - 1], examples - 1)
    else (PlaceAt(slots[..examples - 1], index, slots[examples - 1], zero), examples - 1)
  }

  /** The removal loop, popping the indices in the order of `q`. */
  function RemoveAll(slots: seq<Example>, examples: nat, q: seq<nat>, zero: Example): (r: (seq<Example>, nat))
    requires |q| <= examples <= |slots|
    ensures r.1 == examples - |q| && r.1 <= |r.0|
    decreases |q|
  {
    if q == [] then (slots, examples)
    else
      var r := RemoveAt(slots, examples, q[0], zero);
      RemoveAll(r.0, r.1, q[1..], zero)
  }

  /** Popping a live index takes exactly the record there out of the live
      records, and leaves every slot below it alone. */
  lemma RemoveAtLive(slots: seq<Example>, examples: nat, index: nat, zero: Example)
    requires index < examples <= |slots|
    ensures multiset(RemoveAt(slots, examples, index, zero).0[..examples - 1]) + multiset{slots[index]}
         == multiset(slots[..examples])
    ensures forall j :: 0 <= j < index ==> RemoveAt(slots, examples, index, zero).0[j] == slots[j]
  {
    var e := examples;
    var s1 := RemoveAt(slots, e, index, zero).0;
    var t := slots[..e - 1];
    if index == e - 1 {
      assert s1[..e - 1] == t;
      assert slots[..e] == t + [slots[e - 1]];
    } else {
      assert s1[..e - 1] == t[index := slots[e - 1]];
      ReplaceBag(slots, e, index);
    }
  }

  /** Overwriting a live record with the last one and dropping the last one
      takes out exactly the overwritten record. */
  lemma ReplaceBag(slots: seq<Example>, e: nat, index: nat)
    requires index < e - 1 && e <= |slots|
    ensures multiset(slots[..e - 1][index := slots[e - 1]]) + multiset{slots[index]} == multiset(slots[..e])
  {
    var t := slots[..e - 1];
    assert slots[..e] == t + [slots[e - 1]];
    assert multiset(t[index := slots[e - 1]]) == multiset(t) - multiset{t[index]} + multiset{slots[e - 1]};
  }

  /** The indices `q` lie below `bound` and strictly decrease. */
  predicate DescendingBelow(q: seq<nat>, bound: nat)
  {
    (forall k :: 0 <= k < |q| ==> q[k] < bound) &&
    forall k, l :: 0 <= k < l < |q| ==> q[k] > q[l]
  }

  lemma DescendingTail(q: seq<nat>, bound: nat)
    requires q != [] && DescendingBelow(q, bound)
    ensures q[0] < bound && DescendingBelow(q[1..], q[0])
  {
    assert forall k :: 0 <= k < |q| - 1 ==> q[1..][k] == q[k + 1];
  }

  lemma DescendingWeaken(q: seq<nat>, lo: nat, hi: nat)
    requires lo <= hi && DescendingBelow(q, lo)
    ensures DescendingBelow(q, hi)
  {
  }

  /** Positions below `i` that agree in `a` and `b` pick the same records. */
  lemma PickAgree(a: seq<Example>, b: seq<Example>, q: seq<nat>, i: nat)
    requires i <= |a| && i <= |b| && forall j :: 0 <= j < i ==> a[j] == b[j]
    requires forall k :: 0 <= k < |q| ==> q[k] < i
    ensures Pick(a, q) == Pick(b, q)
  {
  }

  lemma PickCons(s: seq<Example>, q: seq<nat>)
    requires q != [] && forall k :: 0 <= k < |q| ==> q[k] < |s|
    ensures Pick(s, q) == [s[q[0]]] + Pick(s, q[1..])
  {
  }

  lemma RemoveAllCons(slots: seq<Example>, examples: nat, q: seq<nat>, zero: Example)
    requires q != [] && |q| <= examples <= |slots|
    ensures var r := RemoveAt(slots, examples, q[0], zero);
      |q[1..]| <= r.1 <= |r.0| && RemoveAll(slots, examples, q, zero) == RemoveAll(r.0, r.1, q[1..], zero)
  {
  }

  /** Popping distinct live indices from the largest down removes exactly the
      records at those indices: each pop moves the last live record into a
      slot below every index still to be popped, and touches nothing else
      that is still to be popped. */
  lemma {:induction false} RemoveAllDescending(slots: seq<Example>, examples: nat, q: seq<nat>, zero: Example)
    requires |q| <= examples <= |slots| && DescendingBelow(q, examples)
    ensures multiset(RemoveAll(slots, examples, q, zero).0[..examples - |q|]) + multiset(Pick(slots, q))
         == multiset(slots[..examples])
    decreases |q|
  {
    if q == [] {
      assert Pick(slots, q) == [];
      assert RemoveAll(slots, examples, q, zero).0 == slots;
      assert multiset(RemoveAll(slots, examples, q, zero).0[..examples - |q|]) + multiset(Pick(slots, q))
         == multiset(slots[..examples]);
    } else {
      var i, rest := q[0], q[1..];
      DescendingTail(q, examples);
      var e1 := examples - 1;
      var s1 := RemoveAt(slots, examples, i, zero).0;
      RemoveAtLive(slots, examples, i, zero);
      DescendingWeaken(rest, i, e1);
      RemoveAllDescending(s1, e1, rest, zero);
      RemoveAllCons(slots, examples, q, zero);
      PickAgree(s1, slots, rest, i);
      PickCons(slots, q);
      var tail := RemoveAll(s1, e1, rest, zero).0;
      var live, picked := multiset(tail[..e1 - |rest|]), multiset(Pick(slots, rest));
      BagStep(live, picked, slots[i], multiset(s1[..e1]), multiset(slots[..examples]));
      assert RemoveAll(slots, examples, q, zero).0 == tail;
      assert multiset(Pick(slots, q)) == multiset{slots[i]} + picked;
      assert multiset(RemoveAll(slots, examples, q, zero).0[..examples - |q|]) + multiset(Pick(slots, q))
         == multiset(slots[..examples]);
    }
  }

  lemma BagStep(live: multiset<Example>, picked: multiset<Example>, x: Example, mid: multiset<Example>, all: multiset<Example>)
    requires live + picked == mid && mid + multiset{x} == all
    ensures live + (multiset{x} + picked) == all
  {
  }

  /** Strictly ascending. */
  predicate Ascending(q: seq<nat>)
  {
    forall k, l :: 0 <= k < l < |q| ==> q[k] < q[l]
  }

  /** The repeated indices come in strictly ascending order. */
  lemma {:induction false} FlaggedAscending<H>(s: seq<Example>, hash: seq<byte> -> H, n: nat)
    requires n <= |s|
    ensures Ascending(Flagged(s, hash, n))
  {
    if n > 0 {
      FlaggedAscending(s, hash, n - 1);
    }
  }

  /** `q` read from its last element to its first. */
  function Backwards(q: seq<nat>): (r: seq<nat>)
    ensures |r| == |q|
  {
    seq(|q|, k requires 0 <= k < |q| => q[|q| - 1 - k])
  }

  /** Reading a list backwards picks the same records. */
  lemma {:induction false} BackwardsPicks(s: seq<Example>, q: seq<nat>)
    requires forall k :: 0 <= k < |q| ==> q[k] < |s|
    ensures multiset(Pick(s, Backwards(q))) == multiset(Pick(s, q))
    decreases |q|
  {
    if q != [] {
      var front, i := q[..|q| - 1], q[|q| - 1];
      BackwardsPicks(s, front);
      assert Backwards(q) == [i] + Backwards(front);
      assert q == front + [i];
      PicksAtBothEnds(s, Backwards(front), front, i);
    } else {
      assert Pick(s, Backwards(q)) == [];
    }
  }

  /** The repeated indices below `n`, descending: the order the design's
      removal pass must pop them in. */
  function FlaggedDescending<H(==)>(s: seq<Example>, hash: seq<byte> -> H, n: nat): (f: seq<nat>)
    requires n <= |s|
    ensures |f| == |Flagged(s, hash, n)|
    ensures DescendingBelow(f, n)
  {
    FlaggedAscending(s, hash, n);
    Backwards(Flagged(s, hash, n))
  }

  /** The descending order picks the same records as the ascending one. */
  lemma FlaggedDescendingPicks<H>(s: seq<Example>, hash: seq<byte> -> H, n: nat)
    requires n <= |s|
    ensures multiset(Pick(s, FlaggedDescending(s, hash, n))) == multiset(Pick(s, Flagged(s, hash, n)))
  {
    BackwardsPicks(s, Flagged(s, hash, n));
  }

  /** One index more, put in front of one list and behind the other, keeps
      the two picking the same records. */
  lemma PicksAtBothEnds(s: seq<Example>, q: seq<nat>, r: seq<nat>, i: nat)
    requires i < |s| && (forall k :: 0 <= k < |q| ==> q[k] < |s|) && (forall k :: 0 <= k < |r| ==> r[k] < |s|)
    requires multiset(Pick(s, q)) == multiset(Pick(s, r))
    ensures multiset(Pick(s, [i] + q)) == multiset(Pick(s, r + [i]))
  {
    PickCons(s, [i] + q);
    assert ([i] + q)[1..] == q;
    PickSnoc(s, r, i);
  }

  /** `deduplicate` as the design intends: every record visited once, repeated
      records removed from the largest index down. */
  function DedupIntended<H(==)>(slots: seq<Example>, examples: nat, hash: seq<byte> -> H, zero: Example): (r: (seq<Example>, nat))
    requires examples <= |slots|
  {
    var s := slots[..examples];
    RemoveAll(slots, examples, FlaggedDescending(s, hash, examples), zero)
  }

  /** The intended deduplication keeps exactly the first occurrence of every
      payload hash: as a multiset the live records are the first occurrences,
      which have pairwise different hashes and cover every hash there was. */
  lemma DedupIntendedKeepsFirsts<H>(slots: seq<Example>, examples: nat, hash: seq<byte> -> H, zero: Example)
    requires examples <= |slots|
    ensures DedupIntended(slots, examples, hash, zero).1 == |Firsts(slots[..examples], hash, examples)|
    ensures multiset(DedupIntended(slots, examples, hash, zero).0[..DedupIntended(slots, examples, hash, zero).1])
         == multiset(Pick(slots[..examples], Firsts(slots[..examples], hash, examples)))
  {
    var s := slots[..examples];
    var fd := FlaggedDescending(s, hash, examples);
    var fl, fi := Flagged(s, hash, examples), Firsts(s, hash, examples);
    FlaggedCount(s, hash, examples);
    DescendingWeaken(fd, examples, examples);
    RemoveAllDescending(slots, examples, fd, zero);
    var r := RemoveAll(slots, examples, fd, zero);
    assert DedupIntended(slots, examples, hash, zero) == r;
    PickAgree(slots, s, fd, examples);
    FlaggedDescendingPicks(s, hash, examples);
    FlaggedPartition(s, hash, examples);
    assert s[..examples] == s;
    BagCancel(multiset(r.0[..r.1]), multiset(Pick(s, fd)), multiset(Pick(s, fi)), multiset(s));
  }

  lemma BagCancel(kept: multiset<Example>, gone: multiset<Example>, firsts: multiset<Example>, all: multiset<Example>)
    requires kept + gone == all && gone + firsts == all
    ensures kept == firsts
  {
    assert forall x :: kept[x] == (kept + gone)[x] - gone[x] == firsts[x];
  }

  /** Each of the first `n` records is either repeated or a first occurrence. */
  lemma {:induction false} FlaggedCount<H>(s: seq<Example>, hash: seq<byte> -> H, n: nat)
    requires n <= |s|
    ensures |Flagged(s, hash, n)| + |Firsts(s, hash, n)| == n
  {
    if n > 0 {
      FlaggedCount(s, hash, n - 1);
    }
  }

  /** There are as many first occurrences as distinct payload hashes. */
  lemma {:induction false} FirstsCountHashes<H>(s: seq<Example>, hash: seq<byte> -> H, n: nat)
    requires n <= |s|
    ensures |Firsts(s, hash, n)| == |HashesOf(s, hash, n)|
  {
    if n > 0 {
      FirstsCountHashes(s, hash, n - 1);
      var h := hash(s[n - 1].payload);
      if Repeats(s, hash, n - 1) {
        assert HashesOf(s, hash, n) == HashesOf(s, hash, n - 1);
      } else {
        assert h !in HashesOf(s, hash, n - 1);
      }
    }
  }

  /** `deduplicate` as the source computes it. */
  function DedupAsWritten<H(==)>(slots: seq<Example>, examples: nat, ce: nat, hash: seq<byte> -> H, zero: Example): (r: (seq<Example>, nat))
    requires ce > 0 && examples <= |slots|
  {
    var q := ScanAsWritten(slots[..examples], ce, hash);
    RemoveAll(slots, examples, q, zero)
  }

  /** Popping smallest first goes wrong: for the payloads `A, A, B, A` the
      moves leave `A, A` live, losing `B` and keeping a duplicate. */
  lemma DedupAsWrittenLosesRecord(ce: nat)
    requires ce >= 5
    ensures var a, b := Example(0, [1]), Example(0, [2]);
      DedupAsWritten([a, a, b, a], 4, ce, p => p, ZeroExample(1)) == ([a, a, ZeroExample(1), b], 2)
  {
    var a, b := Example(0, [1]), Example(0, [2]);
    var s := [a, a, b, a];
    var hash := (p: seq<byte>) => p;
    assert s[..4] == s;
    ScanAsWrittenAligned(s, ce, hash);
    ExampleFlags(a, b, hash);
    ExampleRemovals(a, b);
  }

  /** The repeated records of `A, A, B, A` are those at 1 and 3. */
  lemma ExampleFlags(a: Example, b: Example, hash: seq<byte> -> seq<byte>)
    requires a == Example(0, [1]) && b == Example(0, [2]) && forall p :: hash(p) == p
    ensures Flagged([a, a, b, a], hash, 4) == [1, 3]
  {
    var s := [a, a, b, a];
    assert HashesOf(s, hash, 1) == {[1]};
    assert HashesOf(s, hash, 2) == {[1]};
    assert HashesOf(s, hash, 3) == {[1], [2]};
    assert Flagged(s, hash, 1) == [];
    assert Flagged(s, hash, 2) == [1];
    assert Flagged(s, hash, 3) == [1];
  }

  /** Popping 1 then 3 from `A, A, B, A`. */
  lemma ExampleRemovals(a: Example, b: Example)
    ensures RemoveAll([a, a, b, a], 4, [1, 3], ZeroExample(1)) == ([a, a, ZeroExample(1), b], 2)
  {
    var z := ZeroExample(1);
    var s := [a, a, b, a];
    var s1 := RemoveAt(s, 4, 1, z).0;
    assert s1 == [a, a, b];
    var s2 := RemoveAt(s1, 3, 3, z).0;
    assert s2 == PlaceAt([a, a], 3, b, z);
    assert s2 == [a, a, z, b];
    RemoveAllCons(s, 4, [1, 3], z);
    RemoveAllCons(s1, 3, [3], z);
    assert [1, 3][1..] == [3] && [3][1..] == [];
  }

  /** Where the hashing pass is right (fewer records than one chunk, or a
      whole number of chunks), the removal pass leaves as many live records as
      there are distinct payload hashes; which records they are is another
      matter (`DedupAsWrittenLosesRecord`). */
  lemma DedupAsWrittenCount<H>(slots: seq<Example>, examples: nat, ce: nat, hash: seq<byte> -> H, zero: Example)
    requires ce > 0 && examples <= |slots| && (examples < ce || examples % ce == 0)
    ensures DedupAsWritten(slots, examples, ce, hash, zero).1 == |HashesOf(slots[..examples], hash, examples)|
  {
    var s := slots[..examples];
    ScanAsWrittenAligned(s, ce, hash);
    FlaggedCount(s, hash, examples);
    FirstsCountHashes(s, hash, examples);
  }
}
