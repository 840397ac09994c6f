/** `BinaryDs`: a dataset file of fixed-width records behind an 8-byte header.
    The file is the `header` bytes followed by the record area `slots` (slot
    `i` is the record at byte offset `HEADER_SIZE + (features + 1) * i`, see
    `Records.SlotBytes`); the live records are the first `examples` slots.
    Whatever the operating system decides (whether the path exists, whether
    it may be read or written, what an existing file holds) is passed in. */
module BinaryDataset {
  import opened Format
  import opened Records
  import opened Shuffling
  import opened Balancing
  import opened Chunking
  import opened Dedup

  /** An existing file as `open` finds it: when it starts with the magic byte
      it holds a whole header and at least as many records, of the width the
      header states, as the header counts. */
  predicate StoredFile(stored: seq<byte>, records: seq<Example>)
  {
    |stored| > 0 && stored[0] == MAGIC ==>
      |stored| == HEADER_SIZE && FromLE(stored[4..8]) <= |records| && PayloadsHaveWidth(records, FromLE(stored[2..4]))
  }

  /** The decision `open` takes: create a missing file unless read-only; open
      an existing one when the mode's access right is granted; reject a file
      without the magic byte; and, unless read-only, reject one whose raw flag
      or feature count differs from the configured ones. */
  function OpenOutcome(ro: bool, present: bool, canRead: bool, canWrite: bool,
                       raw: byte, features: nat, stored: seq<byte>): (r: Outcome)
    ensures !present ==> (r.Pass? <==> !ro) && (ro ==> r == Fail(PermissionDenied))
    ensures present && !(if ro then canRead else canWrite) ==> r == Fail(PermissionDenied)
    ensures present && (if ro then canRead else canWrite) ==>
      (r == Fail(NotCreatedByApplication) <==> DecodeHeader(stored).None?)
    ensures present && ro && canRead ==> (r.Pass? <==> DecodeHeader(stored).Some?)
    ensures present && !ro && canWrite && DecodeHeader(stored).Some? ==>
      var h := DecodeHeader(stored).value;
      && (r == Fail(DifferentEncoding) <==> h.raw != raw)
      && (r == Fail(DifferentFeatures) <==> h.raw == raw && h.features != features)
      && (r.Pass? <==> h.raw == raw && h.features == features)
  {
    if !present then
      if ro then Fail(PermissionDenied) else Pass
    else if (ro && canRead) || (!ro && canWrite) then
      match DecodeHeader(stored)
      case None => Fail(NotCreatedByApplication)
      case Some(h) =>
        if !ro && raw != h.raw then Fail(DifferentEncoding)
        else if !ro && features != h.features then Fail(DifferentFeatures)
        else Pass
    else Fail(PermissionDenied)
  }

  /** The loop of `__calculate_hashes_from_chunk` over the records `data`
      read from record `start` of `s` on: each record's index is pushed on
      the heap when its hash is already in `hashes`, else its hash is added. */
  method HashRecords<H(==)>(ghost s: seq<Example>, data: seq<Example>, start: nat, hashes: set<H>, remove: seq<nat>,
                            hash: seq<byte> -> H)
    returns (hashes': set<H>, remove': seq<nat>)
    requires start + |data| <= |s| && data == s[start .. start + |data|] && Sorted(remove)
    ensures (hashes', remove') == Sweep(s, Range(start, start + |data|), hash, hashes, remove)
  {
    ghost var idx := Range(start, start + |data|);
    ghost var target := Sweep(s, idx, hash, hashes, remove);
    hashes', remove' := hashes, remove;
    var count := 0;
    while count < |data|
      invariant count <= |data| && Sorted(remove')
      invariant Sweep(s, idx[count..], hash, hashes', remove') == target
    {
      var index := start + count;
      assert idx[count..][0] == index && idx[count..][1..] == idx[count + 1..];
      assert data[count] == s[index];
      var curHash := hash(data[count].payload);
      if curHash in hashes' {
        remove' := Insert(remove', index);
      } else {
        hashes' := hashes' + {curHash};
      }
      count := count + 1;
    }
    assert idx[count..] == [];
  }

  /** One record of the counting pass of `balance`: the list of counters
      grows with zeros until it has one for `cat`, which then goes up by one. */
  method BumpCounter(cats: seq<nat>, cat: nat) returns (cats': seq<nat>)
    ensures cats' == Bump(cats, cat)
  {
    cats' := cats;
    while |cats'| <= cat
      invariant |cats| <= |cats'| && (|cats'| == |cats| || |cats'| <= cat + 1)
      invariant cats'[..|cats|] == cats
      invariant forall c :: |cats| <= c < |cats'| ==> cats'[c] == 0
      decreases cat + 1 - |cats'|
    {
      cats' := cats' + [0];
    }
    cats' := cats'[cat := cats'[cat] + 1];
    BumpAt(cats, cat);
    assert forall c :: 0 <= c < |cats'| ==> cats'[c] == Bump(cats, cat)[c];
  }

  class BinaryDs {
    /** The raw flag: 1 for a raw dump, 0 for an opcode encoding. */
    var raw: byte
    var features: nat
    var examples: nat
    const ro: bool
    /** Whether `file` is set. */
    var isOpen: bool
    /** The file: its header bytes and its record area. */
    var header: seq<byte>
    var slots: seq<Example>

    /** The fields fit the header, and an open file has a header describing
        this dataset and a record area of whole records covering the live
        ones. The count field itself may lag behind `examples` (see `Synced`). */
    ghost predicate Valid()
      reads this
    {
      && features < MAX_FEATURES && examples < MAX_EXAMPLES
      && (isOpen ==>
            && |header| == HEADER_SIZE && header[..4] == HeaderPrefix(raw, features)
            && examples <= |slots| && PayloadsHaveWidth(slots, features))
    }

    /** The count field of the header on disk holds `examples`; with
        `Valid` this makes the header the encoding of the fields
        (`SyncedEncodes`). */
    ghost predicate Synced()
      reads this
      requires Valid()
    {
      isOpen ==> FromLE(header[4..]) == examples
    }

    /** An open, synced file carries exactly the encoded header of its fields. */
    lemma SyncedEncodes()
      requires Valid() && isOpen
      ensures Synced() <==> header == EncodeHeader(raw, features, examples)
    {
      ToLEFromLE(header[4..]);
      assert header == header[..4] + header[4..];
      var h := EncodeHeader(raw, features, examples);
      assert h[4..] == h[4..8];
    }

    /** The live records. */
    ghost function Live(): seq<Example>
      reads this
      requires examples <= |slots|
    {
      slots[..examples]
    }

    /** The file ends right after the live records: it is `HEADER_SIZE +
        (features + 1) * examples` bytes long. */
    ghost predicate Exact()
      reads this
    {
      |slots| == examples
    }

    constructor (readOnly: bool, features: nat, rawData: bool)
      requires features < MAX_FEATURES
      ensures Valid() && !isOpen
      ensures ro == readOnly && this.features == features && raw == (if rawData then 1 else 0) && examples == 0
    {
      raw := if rawData then 1 else 0;
      this.features := features;
      examples := 0;
      ro := readOnly;
      isOpen := false;
      header := [];
      slots := [];
    }

    /** `open`, `__read_and_check_existing`. A successful open leaves the
        header in step with the fields; the count of an existing file is
        taken over before the raw flag and the feature count are checked. A
        denied access raises before the file handle is touched, so an open
        container stays open; a failed check closes the file. */
    method Open(present: bool, canRead: bool, canWrite: bool, stored: seq<byte>, records: seq<Example>)
      returns (r: Outcome)
      requires Valid()
      requires !present ==> examples == 0
      requires present ==> StoredFile(stored, records)
      modifies this
      ensures r == OpenOutcome(ro, present, canRead, canWrite, old(raw), old(features), stored)
      ensures Valid()
      ensures r.Pass? ==> isOpen && Synced()
      ensures r == Fail(PermissionDenied) ==> isOpen == old(isOpen) && header == old(header) && slots == old(slots)
      ensures r.Fail? && r != Fail(PermissionDenied) ==> !isOpen
      ensures r.Pass? && !present ==> header == EncodeHeader(raw, features, 0) && slots == []
      ensures r.Pass? && present ==> header == stored && slots == records
      ensures var adopt := present && ((ro && canRead) || (!ro && canWrite)) && DecodeHeader(stored).Some?;
        && examples == (if adopt then DecodeHeader(stored).value.examples else old(examples))
        && raw == (if adopt && ro then DecodeHeader(stored).value.raw else old(raw))
        && features == (if adopt && ro then DecodeHeader(stored).value.features else old(features))
    {
      r := OpenOutcome(ro, present, canRead, canWrite, raw, features, stored);
      if !present {
        if !ro {
          header := EncodeHeader(raw, features, examples);
          slots := [];
          isOpen := true;
        }
      } else if (ro && canRead) || (!ro && canWrite) {
        var d := DecodeHeader(stored);
        if d.Some? {
          var h := d.value;
          HeaderDecodeEncode(stored);
          examples := h.examples;
          if r.Pass? {
            raw := h.raw;
            features := h.features;
            header := stored;
            slots := records;
            isOpen := true;
          } else {
            isOpen := false;
          }
        } else {
          isOpen := false;
        }
      }
    }

    /** `close`; closing a closed dataset does nothing. */
    method Close()
      requires Valid()
      modifies this
      ensures Valid() && !isOpen
      ensures raw == old(raw) && features == old(features) && examples == old(examples)
      ensures header == old(header) && slots == old(slots)
    {
      isOpen := false;
    }

    /** `is_raw`: the raw flag, which on an open file is header byte 1. */
    function IsRaw(): (r: byte)
      reads this
      ensures Valid() && isOpen ==> r == header[1]
    {
      raw
    }

    /** `get_features`: on an open file, the 2-byte count field. */
    function GetFeatures(): (r: nat)
      reads this
      ensures Valid() && isOpen ==> r == FromLE(header[2..4])
    {
      assert Valid() && isOpen ==> header[2..4] == header[..4][2..4];
      features
    }

    /** `get_examples_no`: on an open file whose header is in step, the
        4-byte count field. */
    function GetExamplesNo(): (r: nat)
      reads this
      ensures Valid() && Synced() && isOpen ==> r == FromLE(header[4..8])
    {
      assert Valid() && isOpen ==> header[4..8] == header[4..];
      examples
    }

    /** `write`: either some payload has the wrong length and nothing changes,
        or the batch is written from slot `examples` on and the count grows by
        its length. */
    method Write(data: seq<Example>) returns (r: Outcome)
      requires Valid() && isOpen && !ro
      requires examples + |data| < MAX_EXAMPLES
      modifies this
      ensures r.Pass? <==> PayloadsHaveWidth(data, features)
      ensures r.Fail? ==> r.error == WrongLength && unchanged(this)
      ensures raw == old(raw) && features == old(features) && isOpen
      ensures r.Pass? ==>
        && examples == old(examples) + |data|
        && header == SetCount(old(header), examples)
        && slots == Overwrite(old(slots), old(examples), data)
      ensures Valid() && (r.Pass? ==> Synced())
      ensures r.Pass? ==> Live() == old(Live()) + data
      ensures old(Exact()) ==> Exact()
    {
      var i := 0;
      while i < |data|
        invariant i <= |data|
        invariant forall k :: 0 <= k < i ==> |data[k].payload| == features
      {
        if |data[i].payload| != features {
          return Fail(WrongLength);
        }
        i := i + 1;
      }
      var at := examples;
      examples := examples + |data|;
      header := SetCount(header, examples);
      SetCountEncodes(old(header), raw, features, examples);
      slots := Overwrite(slots, at, data);
      OverwriteLive(old(slots), at, data);
      r := Pass;
    }

    /** `read`: `IndexError` exactly when the span runs past the live
        records; otherwise the records `index .. index + amount`, in order. */
    method Read(index: nat, amount: nat) returns (r: Result<seq<Example>>)
      requires Valid() && isOpen
      ensures r.Err? <==> index + amount > examples
      ensures r.Err? ==> r.error == OutOfRange
      ensures r.Ok? ==> r.value == Live()[index .. index + amount] && PayloadsHaveWidth(r.value, features)
    {
      if index + amount > examples {
        return Err(OutOfRange);
      }
      var retval: seq<Example> := [];
      var i := 0;
      while i < amount
        invariant i <= amount
        invariant retval == slots[index .. index + i]
      {
        retval := retval + [slots[index + i]];
        i := i + 1;
      }
      r := Ok(retval);
    }

    /** `truncate(left)`: the file is cut (or, past its end, extended with
        zero bytes) to `left` records and the count becomes `left`. */
    method Truncate(left: nat)
      requires Valid() && isOpen && !ro && left < MAX_EXAMPLES
      modifies this
      ensures raw == old(raw) && features == old(features) && isOpen
      ensures examples == left && header == SetCount(old(header), left)
      ensures slots == if left <= |old(slots)| then old(slots)[..left]
                       else old(slots) + Zeros(left - |old(slots)|, features)
      ensures Valid() && Synced() && |slots| == left
      ensures left <= old(examples) ==> Live() == old(Live())[..left]
    {
      if left <= |slots| {
        slots := slots[..left];
      } else {
        slots := slots + Zeros(left - |slots|, features);
      }
      examples := left;
      header := SetCount(header, left);
      SetCountEncodes(old(header), raw, features, left);
    }
  
    /** `shuffle`, with `rs` the values `random.random()` returns, one per
        position from the last down to the first. The live records end up in
        the order of the swap sweep with the draws the source computes;
        nothing else in the file changes. */
    method Shuffle(rs: seq<real>)
      requires Valid() && isOpen && !ro
      requires |rs| == examples && InUnitInterval(rs)
      modifies this
      ensures Valid() && isOpen
      ensures raw == old(raw) && features == old(features) && examples == old(examples) && header == old(header)
      ensures |slots| == old(|slots|) && slots[examples..] == old(slots[examples..])
      ensures Live() == Shuffled(old(Live()), AsWrittenDraws(rs))
    {
      ghost var ks := AsWrittenDraws(rs);
      ghost var target := Shuffled(Live(), ks);
      ghost var above := slots[examples..];
      var j: nat := examples;
      while j > 0
        modifies this`slots
        invariant j <= examples <= |slots| && |slots| == old(|slots|) && slots[examples..] == above
        invariant PayloadsHaveWidth(slots, features)
        invariant SweepFrom(slots[..examples], ks, j) == target
      {
        j := j - 1;
        var k := Draw(rs[j], j);
        SweepLoopStep(slots, examples, ks, j, features, target);
        if j != k {
          var recordJ, recordK := slots[j], slots[k];
          slots := slots[k := recordJ][j := recordK];
        }
      }
    }
  
    /** The counting pass of `balance`: one counter per category value from 0
        to the largest one present, the list growing as larger values turn
        up. */
    method CountCategories() returns (cats: seq<nat>)
      requires Valid() && isOpen
      ensures cats == Tally(Live())
      ensures forall c :: 0 <= c < |cats| ==> cats[c] == Count(Live(), c)
    {
      cats := [];
      var i := 0;
      while i < examples
        invariant i <= examples
        invariant cats == Tally(slots[..i])
      {
        cats := BumpCounter(cats, slots[i].category as nat);
        assert slots[..i + 1][..i] == slots[..i];
        i := i + 1;
      }
      TallyCounts(Live());
    }

    /** The backward walk of `balance` from the last live record: a record
        whose counter is at zero is set aside, any other lowers its counter
        and is dropped, and every record walked over leaves the count. The
        walk maps the live records and surplus `d` to what `ScanBack` gives. */
    method DiscardBackward(d: seq<nat>) returns (stored: seq<Example>)
      requires Valid() && isOpen && Discardable(Live(), d)
      modifies this`examples
      ensures Valid() && examples + |stored| <= old(examples)
      ensures ScanBack(old(Live()), d, []) == (old(Live())[..examples], stored)
      ensures PayloadsHaveWidth(stored, features)
    {
      ghost var s0 := Live();
      ghost var target := ScanBack(s0, d, []);
      var cats := d;
      stored := [];
      while Sum(cats) != 0
        modifies this`examples
        invariant examples <= |slots| && PayloadsHaveWidth(slots, features)
        invariant Discardable(slots[..examples], cats) && ScanBack(slots[..examples], cats, stored) == target
        invariant examples + |stored| <= |s0| && PayloadsHaveWidth(stored, features)
        decreases examples
      {
        WalkStep(slots, examples, cats, stored, features, target);
        var data := slots[examples - 1];
        var c := data.category as nat;
        if cats[c] == 0 {
          stored := stored + [data];
        } else {
          cats := cats[c := cats[c] - 1];
        }
        examples := examples - 1;
      }
      assert slots[..examples] == s0[..examples];
    }

    /** `balance`: with two or more counters, the backward walk from the end
        of the file discards surplus records and sets aside the others, and
        the set-aside records are written back after the records in front of
        the walk. The file keeps its length: the discarded records stay on
        disk behind the new count. */
    method Balance()
      requires Valid() && Synced() && isOpen && !ro && |slots| == examples
      modifies this
      ensures Valid() && Synced() && isOpen
      ensures raw == old(raw) && features == old(features) && |slots| == old(|slots|)
      ensures Live() == BalanceAsWritten(old(Live()))
      ensures |Tally(old(Live()))| <= 1 ==> unchanged(this)
    {
      ghost var s0 := Live();
      var cats := CountCategories();
      if |cats| == 0 || |cats| == 1 {
        BalanceAsWrittenTrivial(s0);
        return;
      }
      TallyCounts(s0);
      var minval := Min(cats);
      cats := Subtract(cats, minval);
      assert Discardable(s0, cats);
      var stored := DiscardBackward(cats);
      ghost var kept := Live();
      assert kept == s0[..examples];
      assert BalanceAsWritten(s0) == kept + stored;
      var written := Write(stored);
      assert written.Pass? && Live() == kept + stored;
    }
  
    /** The whole-chunk loop of `merge`: `iterations` chunks of `amount`
        records are read from `other`, from its first record on, and appended. */
    method AppendChunks(other: BinaryDs, amount: nat, iterations: nat)
      requires other != this
      requires Valid() && Synced() && isOpen && !ro && other.Valid() && other.isOpen
      requires features == other.features && iterations * amount <= other.examples
      requires examples + other.examples < MAX_EXAMPLES
      modifies this
      ensures Valid() && Synced() && isOpen && raw == old(raw) && features == old(features)
      ensures examples == old(examples) + iterations * amount
      ensures Live() == old(Live()) + other.Live()[..iterations * amount]
      ensures old(Exact()) ==> Exact()
    {
      ghost var s, o := Live(), other.Live();
      ghost var done: nat := 0;
      var i := 0;
      while i < iterations
        modifies this
        invariant i <= iterations && done == i * amount && done <= iterations * amount
        invariant Valid() && Synced() && isOpen && raw == old(raw) && features == old(features)
        invariant examples == |s| + done && Live() == s + o[..done]
        invariant old(Exact()) ==> Exact()
      {
        ChunkStep(i, iterations, amount);
        var read := other.Read(i * amount, amount);
        var written := Write(read.value);
        assert o[..done] + o[done .. done + amount] == o[..done + amount];
        i, done := i + 1, done + amount;
      }
    }

    /** The partial-chunk step of `merge`: when `count > 0`, the `count`
        records of `other` from record `index` on are appended. */
    method AppendPartial(other: BinaryDs, index: nat, count: nat)
      requires other != this
      requires Valid() && Synced() && isOpen && !ro && other.Valid() && other.isOpen
      requires features == other.features && index + count <= other.examples
      requires examples + count < MAX_EXAMPLES
      modifies this
      ensures Valid() && Synced() && isOpen && raw == old(raw) && features == old(features)
      ensures examples == old(examples) + count
      ensures Live() == old(Live()) + if count > 0 then other.Live()[index .. index + count] else []
      ensures old(Exact()) ==> Exact()
    {
      if count > 0 {
        var read := other.Read(index, count);
        var written := Write(read.value);
      }
    }

    /** The copy `merge` performs once the two headers agree. */
    method MergeChunks(other: BinaryDs)
      requires other != this
      requires Valid() && Synced() && isOpen && !ro
      requires other.Valid() && other.Synced() && other.isOpen && !other.ro
      requires raw == other.raw && features == other.features
      requires examples + other.examples < MAX_EXAMPLES
      modifies this, other
      ensures Valid() && Synced() && isOpen && raw == old(raw) && features == old(features)
      ensures other.Valid() && other.Synced() && other.isOpen
      ensures other.raw == old(other.raw) && other.features == old(other.features)
      ensures examples == old(examples) + old(other.examples) && other.examples == 0 && other.slots == []
      ensures Live() == old(Live()) + MergeAsWritten(old(other.Live()), ChunkCapacity(features))
      ensures old(Exact()) ==> Exact()
    {
      var examplesNo := other.examples;
      var featuresSize := features + 1;
      var amount := BLOCK_SIZE / featuresSize;
      assert amount == ChunkCapacity(features);
      ghost var s, o := Live(), other.Live();
      assert |o| == examplesNo;
      MergeAsWrittenShape(o, amount);
      var iterations := examplesNo / amount;
      var remainder := examplesNo % amount;
      ghost var whole := iterations * amount;
      ghost var tail := if remainder > 0 then o[iterations .. iterations + remainder] else [];
      assert MergeAsWritten(o, amount) == o[..whole] + tail;
      AppendChunks(other, amount, iterations);
      assert Live() == s + o[..whole] && examples == |s| + whole;
      AppendPartial(other, iterations, remainder);
      assert Live() == s + MergeAsWritten(o, amount) && examples == |s| + |o|;
      ghost var merged := Live();
      other.Truncate(0);
      assert Live() == merged;
    }

    /** `merge`: unless the encodings or the feature counts differ (then
        nothing changes), `other`'s records are appended chunk by chunk, the
        last partial chunk read from record `iterations`, and `other` is
        emptied. */
    method Merge(other: BinaryDs) returns (r: Outcome)
      requires other != this
      requires Valid() && Synced() && isOpen && !ro
      requires other.Valid() && other.Synced() && other.isOpen && !other.ro
      requires examples + other.examples < MAX_EXAMPLES
      modifies this, other
      ensures r == if old(raw) != old(other.raw) then Fail(DifferentEncoding)
                   else if old(features) != old(other.features) then Fail(DifferentFeatures)
                   else Pass
      ensures r.Fail? ==> unchanged(this) && unchanged(other)
      ensures Valid() && Synced() && isOpen && raw == old(raw) && features == old(features)
      ensures other.Valid() && other.Synced() && other.isOpen
      ensures other.raw == old(other.raw) && other.features == old(other.features)
      ensures r.Pass? ==> examples == old(examples) + old(other.examples) && other.examples == 0 && other.slots == []
      ensures r.Pass? ==> Live() == old(Live()) + MergeAsWritten(old(other.Live()), ChunkCapacity(features))
      ensures old(Exact()) ==> Exact()
    {
      if IsRaw() != other.IsRaw() {
        return Fail(DifferentEncoding);
      }
      if GetFeatures() != other.GetFeatures() {
        return Fail(DifferentFeatures);
      }
      MergeChunks(other);
      r := Pass;
    }

    /** One move of `split`: the last `count` records are read, appended to
        `other` and cut from this dataset. */
    method MoveLast(other: BinaryDs, count: nat)
      requires other != this
      requires Valid() && Synced() && isOpen && !ro
      requires other.Valid() && other.Synced() && other.isOpen && !other.ro
      requires features == other.features && count <= examples
      requires examples + other.examples < MAX_EXAMPLES
      modifies this, other
      ensures Valid() && Synced() && isOpen && raw == old(raw) && features == old(features)
      ensures other.Valid() && other.Synced() && other.isOpen
      ensures other.raw == old(other.raw) && other.features == old(other.features)
      ensures examples == old(examples) - count && other.examples == old(other.examples) + count
      ensures Live() == old(Live())[..old(examples) - count]
      ensures other.Live() == old(other.Live()) + old(Live())[old(examples) - count ..]
      ensures Exact() && (old(other.Exact()) ==> other.Exact())
    {
      ghost var s := Live();
      var read := Read(examples - count, count);
      assert read.value == s[|s| - count ..];
      var written := other.Write(read.value);
      Truncate(examples - count);
    }

    /** The whole-chunk loop of `split`: `iterations` times, the last `amount`
        records move to `other`; `whole` names `iterations * amount`. */
    method MoveTailChunks(other: BinaryDs, amount: nat, iterations: nat, ghost whole: nat)
      requires other != this
      requires Valid() && Synced() && isOpen && !ro
      requires other.Valid() && other.Synced() && other.isOpen && !other.ro
      requires features == other.features && whole == iterations * amount && whole <= examples
      requires examples + other.examples < MAX_EXAMPLES
      modifies this, other
      ensures Valid() && Synced() && isOpen && raw == old(raw) && features == old(features)
      ensures other.Valid() && other.Synced() && other.isOpen
      ensures other.raw == old(other.raw) && other.features == old(other.features)
      ensures examples == old(examples) - whole && examples + other.examples == old(examples + other.examples)
      ensures Live() == old(Live())[..old(examples) - whole]
      ensures other.Live() == old(other.Live()) + TailChunks(old(Live()), amount, iterations)
      ensures old(Exact()) ==> Exact()
      ensures old(other.Exact()) ==> other.Exact()
    {
      ghost var s, o := Live(), other.Live();
      ghost var done: nat := 0;
      assert whole <= |s|;
      var i := 0;
      while i < iterations
        invariant i <= iterations && done == i * amount && done <= whole
        invariant Valid() && Synced() && isOpen && raw == old(raw) && features == old(features)
        invariant other.Valid() && other.Synced() && other.isOpen && !other.ro
        invariant other.raw == old(other.raw) && other.features == old(other.features)
        invariant examples + other.examples == old(examples + other.examples)
        invariant Live() == s[..|s| - done] && other.Live() == o + TailChunks(s, amount, i)
        invariant old(Exact()) ==> Exact()
        invariant old(other.Exact()) ==> other.Exact()
      {
        ChunkStep(i, iterations, amount);
        MoveTailChunk(other, amount, s, o, i, done);
        i, done := i + 1, done + amount;
      }
    }

    /** One pass of the whole-chunk loop of `split`: with `done = i * amount`
        records already moved, the next chunk from the end moves to `other`. */
    method MoveTailChunk(other: BinaryDs, amount: nat, ghost s: seq<Example>, ghost o: seq<Example>,
                         i: nat, ghost done: nat)
      requires other != this
      requires Valid() && Synced() && isOpen && !ro
      requires other.Valid() && other.Synced() && other.isOpen && !other.ro
      requires features == other.features && examples + other.examples < MAX_EXAMPLES
      requires done == i * amount && done + amount <= |s|
      requires Live() == s[..|s| - done] && other.Live() == o + TailChunks(s, amount, i)
      modifies this, other
      ensures Valid() && Synced() && isOpen && raw == old(raw) && features == old(features)
      ensures other.Valid() && other.Synced() && other.isOpen
      ensures other.raw == old(other.raw) && other.features == old(other.features)
      ensures examples + other.examples == old(examples + other.examples)
      ensures Live() == s[..|s| - (done + amount)] && other.Live() == o + TailChunks(s, amount, i + 1)
      ensures Exact() && (old(other.Exact()) ==> other.Exact())
    {
      ghost var front, moved := Live(), other.Live();
      assert |front| == examples;
      TailMove(s, o, amount, i, done);
      MoveLast(other, amount);
      assert Live() == front[..|front| - amount] && other.Live() == moved + front[|front| - amount ..];
    }

    /** The copy `split` performs once the two headers agree and the count
        `examplesNo = int(examples * ratio)` is known. */
    method SplitChunks(other: BinaryDs, examplesNo: nat)
      requires other != this
      requires Valid() && Synced() && isOpen && !ro
      requires other.Valid() && other.Synced() && other.isOpen && !other.ro
      requires features == other.features && examples + other.examples < MAX_EXAMPLES
      requires examplesNo % ChunkCapacity(features) <= examples % ChunkCapacity(features)
      modifies this, other
      ensures Valid() && Synced() && isOpen && raw == old(raw) && features == old(features)
      ensures other.Valid() && other.Synced() && other.isOpen
      ensures other.raw == old(other.raw) && other.features == old(other.features)
      ensures var moved := SplitAsWrittenBy(old(Live()), ChunkCapacity(features), examplesNo);
        && Live() == old(Live())[..old(examples) - |moved|]
        && other.Live() == old(other.Live()) + moved
      ensures old(Exact()) ==> Exact()
      ensures old(other.Exact()) ==> other.Exact()
    {
      ghost var s, o := Live(), other.Live();
      var featuresSize := features + 1;
      var amount := BLOCK_SIZE / featuresSize;
      assert amount == ChunkCapacity(features);
      SplitAsWrittenParts(s, amount, examplesNo);
      assert |s| == examples;
      var iterations := examples / amount;
      var remainder := examplesNo % amount;
      ghost var whole := iterations * amount;
      MoveSplit(other, amount, iterations, remainder, whole);
    }

    /** The moves of `split`: `iterations` whole chunks of `amount`
        records from the end, then `remainder` records more. */
    method MoveSplit(other: BinaryDs, amount: nat, iterations: nat, remainder: nat, ghost whole: nat)
      requires other != this
      requires Valid() && Synced() && isOpen && !ro
      requires other.Valid() && other.Synced() && other.isOpen && !other.ro
      requires features == other.features && examples + other.examples < MAX_EXAMPLES
      requires whole == iterations * amount && whole + remainder <= examples
      modifies this, other
      ensures Valid() && Synced() && isOpen && raw == old(raw) && features == old(features)
      ensures other.Valid() && other.Synced() && other.isOpen
      ensures other.raw == old(other.raw) && other.features == old(other.features)
      ensures Live() == old(Live())[..old(examples) - (whole + remainder)]
      ensures other.Live() == old(other.Live()) + SplitMoved(old(Live()), amount, iterations, remainder)
      ensures old(Exact()) ==> Exact()
      ensures old(other.Exact()) ==> other.Exact()
    {
      ghost var s, o := Live(), other.Live();
      SplitMovedParts(s, o, amount, iterations, remainder, whole);
      MoveTailChunks(other, amount, iterations, whole);
      if remainder > 0 {
        MoveLast(other, remainder);
      }
    }

    /** `split`: unless the encodings or the feature counts differ (then
        nothing changes), whole chunks of `amount` records move from the end
        of this dataset to `other`, as many as there are whole chunks in the
        dataset, and then `int(examples * ratio) % amount` records more. */
    method Split(other: BinaryDs, ratio: real) returns (r: Outcome)
      requires other != this && 0.0 <= ratio
      requires Valid() && Synced() && isOpen && !ro
      requires other.Valid() && other.Synced() && other.isOpen && !other.ro
      requires examples + other.examples < MAX_EXAMPLES
      requires raw == other.raw && features == other.features ==>
        SplitAsWrittenInRange(examples, ChunkCapacity(features), ratio)
      modifies this, other
      ensures r == if old(raw) != old(other.raw) then Fail(DifferentEncoding)
                   else if old(features) != old(other.features) then Fail(DifferentFeatures)
                   else Pass
      ensures r.Fail? ==> unchanged(this) && unchanged(other)
      ensures Valid() && Synced() && isOpen && raw == old(raw) && features == old(features)
      ensures other.Valid() && other.Synced() && other.isOpen
      ensures other.raw == old(other.raw) && other.features == old(other.features)
      ensures r.Pass? ==> var moved := SplitAsWrittenMoved(old(Live()), ChunkCapacity(features), ratio);
        && Live() == old(Live())[..old(examples) - |moved|]
        && other.Live() == old(other.Live()) + moved
      ensures old(Exact()) ==> Exact()
      ensures old(other.Exact()) ==> other.Exact()
    {
      if IsRaw() != other.IsRaw() {
        return Fail(DifferentEncoding);
      }
      if GetFeatures() != other.GetFeatures() {
        return Fail(DifferentFeatures);
      }
      var examplesNo := SplitCount(examples, ratio);
      SplitChunks(other, examplesNo);
      r := Pass;
    }

    /** `__calculate_hashes_from_chunk`: the `chunkElements` records from
        record `chunkIndex * chunkElements` on are hashed in order; a record
        whose hash is already in `hashes` has its index pushed on the heap
        `remove`, any other adds its hash. */
    method CalculateHashesFromChunk<H(==)>(chunkElements: nat, chunkIndex: nat, hashes: set<H>, remove: seq<nat>,
                                           hash: seq<byte> -> H)
      returns (hashes': set<H>, remove': seq<nat>)
      requires Valid() && isOpen && Sorted(remove)
      requires chunkIndex * chunkElements + chunkElements <= examples
      ensures var start := chunkIndex * chunkElements;
        (hashes', remove') == Sweep(Live(), Range(start, start + chunkElements), hash, hashes, remove)
    {
      var start := chunkIndex * chunkElements;
      var read := Read(start, chunkElements);
      hashes', remove' := HashRecords(Live(), read.value, start, hashes, remove, hash);
    }

    /** The whole-chunk loop of `deduplicate`'s hashing pass: chunks
        `0 .. chunksNo - 1` of `chunkElements` records, in order. */
    method HashWholeChunks<H(==)>(chunkElements: nat, chunksNo: nat, ghost whole: nat, hash: seq<byte> -> H)
      returns (hashes: set<H>, remove: seq<nat>)
      requires Valid() && isOpen && whole == chunksNo * chunkElements && whole <= examples
      ensures (hashes, remove) == Sweep(Live(), Range(0, whole), hash, {}, [])
    {
      ghost var s := Live();
      hashes, remove := {}, [];
      var chunkIndex := 0;
      ghost var done: nat := 0;
      while chunkIndex < chunksNo
        invariant chunkIndex <= chunksNo && done == chunkIndex * chunkElements && done <= whole
        invariant (hashes, remove) == Sweep(s, Range(0, done), hash, {}, [])
      {
        ChunkStep(chunkIndex, chunksNo, chunkElements);
        var hashes', remove' := CalculateHashesFromChunk(chunkElements, chunkIndex, hashes, remove, hash);
        SweepChunkStep(s, hash, done, chunkElements, hashes, remove, hashes', remove');
        chunkIndex, done, hashes, remove := chunkIndex + 1, done + chunkElements, hashes', remove';
      }
    }

    /** The hashing pass of `deduplicate`: every whole chunk of `chunkElements`
        records in order, then the `examples % chunkElements` remaining records
        read from record `chunksNo * remainder` on. The heap it builds is the
        queue `ScanAsWritten` describes. */
    method HashChunks<H(==)>(chunkElements: nat, hash: seq<byte> -> H) returns (remove: seq<nat>)
      requires Valid() && isOpen && chunkElements > 0
      ensures remove == ScanAsWritten(Live(), chunkElements, hash)
    {
      ScanAsWrittenParts(Live(), chunkElements, hash);
      DivBounds(examples, chunkElements);
      var chunksNo := examples / chunkElements;
      MulMonotone(0, chunksNo, chunkElements);
      var hashes;
      hashes, remove := HashWholeChunks(chunkElements, chunksNo, chunksNo * chunkElements, hash);
      var remainder := examples % chunkElements;
      if remainder > 0 {
        hashes, remove := CalculateHashesFromChunk(remainder, chunksNo, hashes, remove, hash);
      }
    }

    /** One pop of the removal pass of `deduplicate`: when `index` is the
        last live record the file is cut by one record; otherwise the last live
        record is read, the file is cut by one record and the record is
        written at `index`. The header count follows. */
    method RemoveIndex(index: nat)
      requires Valid() && Synced() && isOpen && !ro && examples > 0
      modifies this
      ensures Valid() && Synced() && isOpen && raw == old(raw) && features == old(features)
      ensures (slots, examples) == RemoveAt(old(slots), old(examples), index, ZeroExample(features))
    {
      if index == examples - 1 {
        Truncate(examples - 1);
      } else {
        var data := slots[examples - 1];
        Truncate(examples - 1);
        var zero := ZeroExample(features);
        slots := PlaceAt(slots, index, data, zero);
        assert PayloadsHaveWidth(slots, features);
      }
    }

    /** The removal pass of `deduplicate`: the smallest queued index is popped
        off the heap until it is empty. */
    method RemoveQueued(remove: seq<nat>)
      requires Valid() && Synced() && isOpen && !ro && |remove| <= examples
      modifies this
      ensures Valid() && Synced() && isOpen && raw == old(raw) && features == old(features)
      ensures (slots, examples) == RemoveAll(old(slots), old(examples), remove, ZeroExample(features))
    {
      ghost var target := RemoveAll(slots, examples, remove, ZeroExample(features));
      var heap := remove;
      while |heap| != 0
        invariant Valid() && Synced() && isOpen && raw == old(raw) && features == old(features)
        invariant |heap| <= examples
        invariant RemoveAll(slots, examples, heap, ZeroExample(features)) == target
        decreases |heap|
      {
        RemoveAllCons(slots, examples, heap, ZeroExample(features));
        var index := heap[0];
        heap := heap[1..];
        RemoveIndex(index);
      }
    }

    /** `deduplicate`: the hashing pass with chunks of as many records as fit
        the rounded-up block, then the removal pass over the queued indices. */
    method Deduplicate<H(==)>(hash: seq<byte> -> H)
      requires Valid() && Synced() && isOpen && !ro
      modifies this
      ensures Valid() && Synced() && isOpen && raw == old(raw) && features == old(features)
      ensures (slots, examples)
           == DedupAsWritten(old(slots), old(examples), DedupChunkElements(features), hash, ZeroExample(features))
    {
      var featureSize := features + 1;
      var chunkSize := BLOCK_SIZE + featureSize;
      chunkSize := chunkSize - chunkSize % featureSize;
      var chunkElements := chunkSize / featureSize;
      assert chunkElements == DedupChunkElements(features);
      var remove := HashChunks(chunkElements, hash);
      RemoveQueued(remove);
    }
  }
}
