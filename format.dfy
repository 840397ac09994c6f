/** The on-disk format of a binary dataset: bytes, the 8-byte header, the
    record type, the error kinds and the chunk capacities the bulk
    operations use. */
module Format {

  newtype byte = x: int | 0 <= x < 256

  const HEADER_SIZE: nat := 8
  const MAGIC: byte := 0x27
  const BLOCK_SIZE: nat := 4194304
  /** Exclusive bound of the 2-byte feature-count field. */
  const MAX_FEATURES: nat := 0x1_0000
  /** Exclusive bound of the 4-byte example-count field. */
  const MAX_EXAMPLES: nat := 0x1_0000_0000

  /** The exceptions the container raises. */
  datatype Error =
    | PermissionDenied          // PermissionError
    | NotCreatedByApplication   // IOError: bad magic byte
    | DifferentEncoding         // IOError: raw flags differ
    | DifferentFeatures         // IOError: feature counts differ
    | WrongLength               // ValueError: payload of the wrong length
    | OutOfRange                // IndexError

  datatype Outcome = Pass | Fail(error: Error)

  datatype Result<T> = Ok(value: T) | Err(error: Error)

  datatype Option<T> = None | Some(value: T)

  /** One example: a category byte and its feature payload. */
  datatype Example = Example(category: byte, payload: seq<byte>)

  /** The example that a zero-filled gap in the file reads as. */
  function ZeroExample(features: nat): (e: Example)
    ensures e.category == 0 && |e.payload| == features
    ensures forall i :: 0 <= i < features ==> e.payload[i] == 0
  {
    Example(0, seq(features, _ => 0))
  }

  function Pow256(width: nat): (p: nat)
    ensures p >= 1
  {
    if width == 0 then 1 else 256 * Pow256(width - 1)
  }

  /** `int.from_bytes(bs, byteorder="little")`. */
  function FromLE(bs: seq<byte>): (n: nat)
    ensures n < Pow256(|bs|)
  {
    if bs == [] then 0 else bs[0] as nat + 256 * FromLE(bs[1..])
  }

  /** `n.to_bytes(width, byteorder="little")`; the source raises
      OverflowError when `n` does not fit, which the requires excludes. */
  function ToLE(n: nat, width: nat): (bs: seq<byte>)
    requires n < Pow256(width)
    ensures |bs| == width
    ensures FromLE(bs) == n
  {
    if width == 0 then []
    else
      assert n / 256 < Pow256(width - 1);
      [(n % 256) as byte] + ToLE(n / 256, width - 1)
  }

  /** Encoding is the inverse of decoding on byte strings of a fixed width. */
  lemma {:induction false} ToLEFromLE(bs: seq<byte>)
    ensures ToLE(FromLE(bs), |bs|) == bs
  {
    if bs != [] {
      ToLEFromLE(bs[1..]);
      var n := FromLE(bs);
      assert n % 256 == bs[0] as nat;
      assert n / 256 == FromLE(bs[1..]);
    }
  }

  /** The fields of the header, as read back from a file. */
  datatype Header = Header(raw: byte, features: nat, examples: nat)

  /** The first four header bytes: magic, raw flag, 2-byte LE feature count. */
  function HeaderPrefix(raw: byte, features: nat): (p: seq<byte>)
    requires features < MAX_FEATURES
    ensures |p| == 4 && p[0] == MAGIC && p[1] == raw && FromLE(p[2..4]) == features
  {
    var p := [MAGIC, raw] + ToLE(features, 2);
    assert p[2..4] == ToLE(features, 2);
    p
  }

  /** The header a new file starts with: magic, raw flag, 2-byte LE feature
      count, 4-byte LE example count. */
  function EncodeHeader(raw: byte, features: nat, examples: nat): (h: seq<byte>)
    requires features < MAX_FEATURES && examples < MAX_EXAMPLES
    ensures |h| == HEADER_SIZE && h[0] == MAGIC && h[1] == raw
    ensures FromLE(h[2..4]) == features && FromLE(h[4..8]) == examples
  {
    var h := HeaderPrefix(raw, features) + ToLE(examples, 4);
    assert h[2..4] == HeaderPrefix(raw, features)[2..4] && h[4..8] == ToLE(examples, 4);
    h
  }

  /** Bytes `lo..hi` of a file as successive `read` calls return them: a read
      past the end of the file returns fewer (or no) bytes. */
  function Field(h: seq<byte>, lo: nat, hi: nat): (f: seq<byte>)
    requires lo <= hi
    ensures |f| <= hi - lo
    ensures hi <= |h| ==> f == h[lo..hi]
  {
    if |h| <= lo then [] else h[lo .. if hi <= |h| then hi else |h|]
  }

  /** Reads the header of an existing file; `None` when the first byte is not
      the magic byte (a missing byte reads as zero, as `int.from_bytes(b"")`
      does). */
  function DecodeHeader(h: seq<byte>): (r: Option<Header>)
    ensures r.Some? <==> |h| > 0 && h[0] == MAGIC
    ensures r.Some? ==> r.value.features < MAX_FEATURES && r.value.examples < MAX_EXAMPLES
    ensures r.Some? && |h| >= HEADER_SIZE ==>
      r.value.raw == h[1] && r.value.features == FromLE(h[2..4]) && r.value.examples == FromLE(h[4..8])
  {
    var magic := Field(h, 0, 1);
    assert |h| > 0 ==> magic == [h[0]] && FromLE(magic) == h[0] as nat;
    if FromLE(magic) != MAGIC as nat then None
    else
      var raw := Field(h, 1, 2);
      assert |h| > 1 ==> raw == [h[1]] && FromLE(raw) == h[1] as nat;
      Some(Header(FromLE(raw) as byte, FromLE(Field(h, 2, 4)), FromLE(Field(h, 4, 8))))
  }

  /** Decoding gives back what creating a file wrote. */
  lemma HeaderRoundTrip(raw: byte, features: nat, examples: nat)
    requires features < MAX_FEATURES && examples < MAX_EXAMPLES
    ensures DecodeHeader(EncodeHeader(raw, features, examples)) == Some(Header(raw, features, examples))
  {
  }

  /** A well-formed 8-byte header is exactly the encoding of what it decodes to. */
  lemma HeaderDecodeEncode(h: seq<byte>)
    requires |h| == HEADER_SIZE && h[0] == MAGIC
    ensures DecodeHeader(h).Some?
    ensures var d := DecodeHeader(h).value; EncodeHeader(d.raw, d.features, d.examples) == h
  {
    var d := DecodeHeader(h).value;
    ToLEFromLE(h[2..4]);
    ToLEFromLE(h[4..8]);
    assert h == [h[0], h[1]] + h[2..4] + h[4..8];
  }

  /** The header after `seek(4)` and writing the 4-byte example count. */
  function SetCount(h: seq<byte>, examples: nat): (h': seq<byte>)
    requires |h| == HEADER_SIZE && examples < MAX_EXAMPLES
    ensures |h'| == HEADER_SIZE && h'[..4] == h[..4] && FromLE(h'[4..]) == examples
  {
    h[..4] + ToLE(examples, 4)
  }

  /** Rewriting the count field of a header whose first four bytes describe
      the dataset gives the full header for the new count. */
  lemma SetCountEncodes(h: seq<byte>, raw: byte, features: nat, examples: nat)
    requires |h| == HEADER_SIZE && features < MAX_FEATURES && examples < MAX_EXAMPLES
    requires h[..4] == HeaderPrefix(raw, features)
    ensures SetCount(h, examples) == EncodeHeader(raw, features, examples)
  {
  }

  /** Every payload has the configured width. */
  predicate PayloadsHaveWidth(s: seq<Example>, features: nat)
  {
    forall i :: 0 <= i < |s| ==> |s[i].payload| == features
  }

  /** `int(BLOCK_SIZE / (features + 1))`: the number of whole records in one
      block, the chunk that merge and split move at a time. The float division
      is exact enough here that its truncation is the integer quotient: the two
      operands are below 2^23, so a quotient that is not a whole number is at
      least 2^-16 away from one, far more than the rounding error. */
  function ChunkCapacity(features: nat): (amount: nat)
    requires features < MAX_FEATURES
    ensures amount >= 64
  {
    DivIsLargest(BLOCK_SIZE, features + 1, 64);
    BLOCK_SIZE / (features + 1)
  }

  /** A chunk is the largest number of whole records that fit in one block. */
  lemma ChunkCapacityFits(features: nat)
    requires features < MAX_FEATURES
    ensures var amount := ChunkCapacity(features);
      amount * (features + 1) <= BLOCK_SIZE < (amount + 1) * (features + 1)
  {
    DivMod(BLOCK_SIZE, features + 1);
  }

  /** The chunk size deduplicate uses: `BLOCK_SIZE + fs` rounded down to a
      multiple of the record size `fs`, counted in records; one record more
      than a merge chunk. */
  function DedupChunkElements(features: nat): (elements: nat)
    requires features < MAX_FEATURES
    ensures elements == ChunkCapacity(features) + 1
  {
    var fs := features + 1;
    var chunkSize := BLOCK_SIZE + fs;
    var chunkSize' := chunkSize - chunkSize % fs;
    RoundDown(BLOCK_SIZE, fs);
    chunkSize' / fs
  }

  /** Rounding `a + b` down to a multiple of `b` and dividing by `b` gives
      one more than `a / b`. */
  lemma RoundDown(a: nat, b: nat)
    requires b > 0
    ensures ((a + b) - (a + b) % b) / b == a / b + 1
  {
    var q, r := a / b, a % b;
    assert a + b == (q + 1) * b + r;
    DivModUnique(a + b, b, q + 1, r);
    assert (a + b) - (a + b) % b == (q + 1) * b;
    DivModUnique((q + 1) * b, b, q + 1, 0);
  }

  /** The Euclidean identity for record counts. */
  lemma DivMod(n: nat, amount: nat)
    requires amount > 0
    ensures n == (n / amount) * amount + n % amount && n % amount < amount
  {
  }

  /** The quotient of a number by a positive divisor is a number no larger. */
  lemma DivBounds(a: nat, b: nat)
    requires b > 0
    ensures 0 <= a / b <= a
  {
    DivMod(a, b);
    MulMonotone(1, b, a / b);
  }

  /** One factor fewer: `(k - 1) * c` is `k * c - c`. */
  lemma MulPred(k: nat, c: nat)
    requires k > 0
    ensures (k - 1) * c + c == k * c
  {
  }

  lemma MulMonotone(x: nat, y: nat, c: nat)
    requires x <= y
    ensures x * c <= y * c
  {
  }

  lemma MulCancelLess(x: nat, y: nat, c: nat)
    requires x * c < y * c
    ensures x < y
  {
    if y <= x {
      MulMonotone(y, x, c);
    }
  }

  /** Quotient and remainder are determined by the Euclidean identity. */
  lemma DivModUnique(a: nat, b: nat, q: nat, r: nat)
    requires b > 0 && r < b && a == q * b + r
    ensures a / b == q && a % b == r
  {
    var q', r' := a / b, a % b;
    assert q' * b + r' == q * b + r;
    MulCancelLess(q', q + 1, b);
    MulCancelLess(q, q' + 1, b);
  }

  lemma DivIsLargest(a: nat, b: nat, k: nat)
    requires b > 0 && k * b <= a
    ensures k <= a / b
  {
    MulCancelLess(k, a / b + 1, b);
  }
}
