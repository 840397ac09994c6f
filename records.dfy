/** The record area of a dataset file as a sequence of record slots. Slot `i`
    stands for the `features + 1` bytes at offset `HEADER_SIZE + (features + 1) * i`;
    `Serialize` gives the bytes and `SlotBytes` proves where each record lies. */
module Records {
  import opened Format

  /** The bytes of one record: the category byte, then the payload. */
  function RecordBytes(e: Example): (bs: seq<byte>)
    ensures |bs| == 1 + |e.payload| && bs[0] == e.category && bs[1..] == e.payload
  {
    [e.category] + e.payload
  }

  /** The record area as bytes. */
  function Flatten(s: seq<Example>): seq<byte>
  {
    if s == [] then [] else RecordBytes(s[0]) + Flatten(s[1..])
  }

  /** The whole file: header, then the record area. */
  function Serialize(header: seq<byte>, s: seq<Example>): seq<byte>
  {
    header + Flatten(s)
  }

  /** A record area of `n` records of width `features` is `(features + 1) * n`
      bytes long. */
  lemma {:induction false} FlattenLength(s: seq<Example>, features: nat)
    requires PayloadsHaveWidth(s, features)
    ensures |Flatten(s)| == (features + 1) * |s|
  {
    if s != [] {
      FlattenLength(s[1..], features);
      var w, n := features + 1, |s| - 1;
      assert w * (n + 1) == w + w * n;
    }
  }

  /** The bytes of two record areas one after the other. */
  lemma {:induction false} FlattenAppend(a: seq<Example>, b: seq<Example>)
    ensures Flatten(a + b) == Flatten(a) + Flatten(b)
  {
    if a != [] {
      FlattenAppend(a[1..], b);
      assert (a + b)[0] == a[0] && (a + b)[1..] == a[1..] + b;
      assert Flatten(a + b) == RecordBytes(a[0]) + Flatten(a[1..] + b);
    } else {
      assert a + b == b;
    }
  }

  /** Record `i` occupies the `features + 1` bytes from `(features + 1) * i` on
      in the record area. */
  lemma FlattenAt(s: seq<Example>, features: nat, i: nat)
    requires PayloadsHaveWidth(s, features) && i < |s|
    ensures |Flatten(s)| == (features + 1) * |s|
    ensures var off := (features + 1) * i;
      off + features + 1 <= |Flatten(s)| && Flatten(s)[off .. off + features + 1] == RecordBytes(s[i])
  {
    FlattenLength(s, features);
    var front, rest := s[..i], s[i + 1..];
    FlattenLength(front, features);
    assert s == front + ([s[i]] + rest);
    FlattenAppend(front, [s[i]] + rest);
    FlattenAppend([s[i]], rest);
    assert Flatten([s[i]]) == RecordBytes(s[i]) + Flatten([]);
    var x, y, z := Flatten(front), RecordBytes(s[i]), Flatten(rest);
    assert Flatten(s) == x + (y + z);
    assert |Flatten(s)| == |x| + |y| + |z|;
    assert |x| == (features + 1) * i && |y| == features + 1;
    assert (x + (y + z))[|x| .. |x| + |y|] == y;
  }

  /** In the file, record `i` lies at offset `HEADER_SIZE + (features + 1) * i`,
      and the file is `HEADER_SIZE + (features + 1) * n` bytes long. */
  lemma SlotBytes(header: seq<byte>, s: seq<Example>, features: nat, i: nat)
    requires |header| == HEADER_SIZE && PayloadsHaveWidth(s, features) && i < |s|
    ensures |Serialize(header, s)| == HEADER_SIZE + (features + 1) * |s|
    ensures var off := HEADER_SIZE + (features + 1) * i;
      off + features + 1 <= |Serialize(header, s)| &&
      Serialize(header, s)[off .. off + features + 1] == RecordBytes(s[i])
  {
    FlattenAt(s, features, i);
    SliceBehind(header, Flatten(s), (features + 1) * i, features + 1);
  }

  /** A span of the second of two byte strings, found in their concatenation. */
  lemma SliceBehind(a: seq<byte>, b: seq<byte>, off: nat, w: nat)
    requires off + w <= |b|
    ensures (a + b)[|a| + off .. |a| + off + w] == b[off .. off + w]
  {
  }

  /** Writing the records `d` at slot `at`, the way `seek` then `write` does:
      what lies beyond the written span is kept, and the area grows when the
      write runs past its end. */
  function Overwrite(s: seq<Example>, at: nat, d: seq<Example>): (r: seq<Example>)
    requires at <= |s|
    ensures |r| == if at + |d| <= |s| then |s| else at + |d|
    ensures r[..at] == s[..at] && r[at .. at + |d|] == d
    ensures forall i :: at + |d| <= i < |s| ==> r[i] == s[i]
  {
    s[..at] + d + if at + |d| <= |s| then s[at + |d|..] else []
  }

  /** The last `a` records of the first `p` are records `p - a` to `p`. */
  lemma TakeTail(s: seq<Example>, p: nat, a: nat)
    requires a <= p <= |s|
    ensures s[..p][p - a ..] == s[p - a .. p]
  {
  }

  /** Two writes one after the other are one write of both batches. */
  lemma OverwriteConsecutive(s: seq<Example>, at: nat, a: seq<Example>, b: seq<Example>)
    requires at <= |s|
    ensures at + |a| <= |Overwrite(s, at, a)|
    ensures Overwrite(Overwrite(s, at, a), at + |a|, b) == Overwrite(s, at, a + b)
  {
    var l := Overwrite(Overwrite(s, at, a), at + |a|, b);
    var r := Overwrite(s, at, a + b);
    assert |l| == |r|;
    forall i | 0 <= i < |l| ensures l[i] == r[i] {
      if i < at {
        assert l[i] == l[..at][i];
      } else if i < at + |a| {
        assert l[i] == Overwrite(s, at, a)[..at + |a|][i];
        assert Overwrite(s, at, a)[at .. at + |a|] == a;
        assert r[at .. at + |a| + |b|] == a + b;
      } else if i < at + |a| + |b| {
        assert l[at + |a| .. at + |a| + |b|] == b;
        assert r[at .. at + |a| + |b|] == a + b;
      }
    }
  }

  /** Writing at the end of the live region keeps the records before it and
      makes the batch the records that follow. */
  lemma OverwriteLive(s: seq<Example>, at: nat, d: seq<Example>)
    requires at <= |s|
    ensures Overwrite(s, at, d)[..at + |d|] == s[..at] + d
  {
  }

  /** What `n` zero-filled record slots read as. */
  function Zeros(n: nat, features: nat): (r: seq<Example>)
    ensures |r| == n && PayloadsHaveWidth(r, features)
    ensures forall i :: 0 <= i < n ==> r[i] == ZeroExample(features)
  {
    seq(n, _ => ZeroExample(features))
  }

  /** The zero record is `features + 1` zero bytes, and it is the only record
      of that width whose bytes are all zero: a zero-filled slot reads back
      as `ZeroExample`. */
  lemma ZeroRecordBytes(e: Example, features: nat)
    requires |e.payload| == features
    ensures RecordBytes(ZeroExample(features)) == seq(features + 1, _ => 0)
    ensures RecordBytes(e) == seq(features + 1, _ => 0) <==> e == ZeroExample(features)
  {
    var z: seq<byte> := seq(features + 1, _ => 0);
    var zero := ZeroExample(features);
    assert z[1..] == zero.payload;
    assert RecordBytes(zero) == z;
    if RecordBytes(e) == z {
      assert e.category == z[0] && e.payload == z[1..];
    }
  }

  /** Extending a file by `n` zero records adds `(features + 1) * n` zero
      bytes. */
  lemma {:induction false} ZerosFlatten(n: nat, features: nat)
    ensures Flatten(Zeros(n, features)) == seq((features + 1) * n, _ => 0)
    decreases n
  {
    var z := Zeros(n, features);
    if n == 0 {
      assert z == [];
    } else {
      var w, m := features + 1, (features + 1) * (n - 1);
      assert z[0] == ZeroExample(features) && z[1..] == Zeros(n - 1, features);
      ZerosFlatten(n - 1, features);
      ZeroRecordBytes(z[0], features);
      assert Flatten(z) == seq(w, _ => 0) + seq(m, _ => 0);
      assert w * n == w + m;
      ZeroBytesJoin(w, m);
    }
  }

  /** Two runs of zero bytes make one. */
  lemma ZeroBytesJoin(a: nat, b: nat)
    ensures seq(a, _ => 0 as byte) + seq(b, _ => 0 as byte) == seq(a + b, _ => 0 as byte)
  {
  }

  /** One record written at slot `index` of an area that may be shorter: the gap
      `seek` leaves past the end of the file reads back as zero bytes. */
  function PlaceAt(s: seq<Example>, index: nat, e: Example, zero: Example): (r: seq<Example>)
    ensures |r| == if index < |s| then |s| else index + 1
    ensures r[index] == e
    ensures forall i :: 0 <= i < |s| && i != index ==> r[i] == s[i]
    ensures forall i :: |s| <= i < index ==> r[i] == zero
  {
    if index < |s| then s[index := e] else s + seq(index - |s|, _ => zero) + [e]
  }
}
