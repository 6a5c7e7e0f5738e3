/**
 The Internet checksum (RFC 1071, section 1) as the forwarder computes it: add all
 16-bit words into a wide accumulator, fold the carries once at the end, complement.
 The reference is the definition itself: 16-bit addition with end-around carry, word by word.
 */
module InternetChecksum {
  import opened Octets

  /** Ones'-complement addition of two 16-bit words: the carry out is added back in. */
  function EndAroundAdd(a: u16, b: u16): (r: u16) {
    if a + b < 0x1_0000 then a + b else a + b - 0xffff
  }

  /** The 16-bit word at `i`; a lone last byte is padded with a zero on the right. */
  function WordAt(bytes: seq<byte>, i: nat): (r: u16)
    requires i < |bytes|
  {
    0x100 * (bytes[i] as int) + (if i + 1 < |bytes| then bytes[i + 1] else 0)
  }

  function EndAroundFrom(bytes: seq<byte>, i: nat): (r: u16)
    decreases |bytes| - i
  {
    if i >= |bytes| then 0 else EndAroundAdd(WordAt(bytes, i), EndAroundFrom(bytes, i + 2))
  }

  /** The ones'-complement sum of RFC 1071. */
  function EndAroundSum(bytes: seq<byte>): (r: u16) {
    EndAroundFrom(bytes, 0)
  }

  /** A checksummed region is intact when the sum of all its words is all ones. */
  predicate Verifies(bytes: seq<byte>) {
    EndAroundSum(bytes) == 0xffff
  }

  /** The plain integer sum of the words from `i` on, with no carry folded. */
  function WordSumFrom(bytes: seq<byte>, i: nat): (r: nat)
    decreases |bytes| - i
  {
    if i >= |bytes| then 0 else WordAt(bytes, i) + WordSumFrom(bytes, i + 2)
  }

  function WordSum(bytes: seq<byte>): (r: nat) {
    WordSumFrom(bytes, 0)
  }

  /** The 16-bit ones'-complement representative of a sum; zero stays zero, other multiples of 0xffff do not. */
  function Folded(n: nat): (r: u16) {
    if n == 0 then 0 else (n - 1) % 0xffff + 1
  }

  lemma FoldedSum(bytes: seq<byte>)
    ensures EndAroundSum(bytes) == Folded(WordSum(bytes))
  {
    FoldedFrom(bytes, 0);
  }

  lemma {:induction false} FoldedFrom(bytes: seq<byte>, i: nat)
    ensures EndAroundFrom(bytes, i) == Folded(WordSumFrom(bytes, i))
    decreases |bytes| - i
  {
    if i < |bytes| {
      FoldedFrom(bytes, i + 2);
      FoldOneMore(WordAt(bytes, i), WordSumFrom(bytes, i + 2));
    }
  }

  lemma FoldOneMore(w: u16, n: nat)
    ensures EndAroundAdd(w, Folded(n)) == Folded(w + n)
  {
  }

  lemma {:induction false} WordSumBound(bytes: seq<byte>, i: nat)
    requires i <= |bytes| + 1
    ensures WordSumFrom(bytes, i) <= 0xffff * ((|bytes| - i + 1) / 2)
    decreases |bytes| - i
  {
    if i < |bytes| {
      WordSumBound(bytes, i + 2);
    }
  }

  lemma {:induction false} WordSumShift(a: seq<byte>, b: seq<byte>, j: nat)
    ensures WordSumFrom(a + b, |a| + j) == WordSumFrom(b, j)
    decreases |b| - j
  {
    if j < |b| {
      WordSumShift(a, b, j + 2);
    }
  }

  /** Even-length data in front adds its own sum: how the pseudo-header joins a segment. */
  lemma {:induction false} WordSumConcat(a: seq<byte>, b: seq<byte>, i: nat)
    requires |a| % 2 == 0 && i % 2 == 0 && i <= |a|
    ensures WordSumFrom(a + b, i) == WordSumFrom(a, i) + WordSum(b)
    decreases |a| - i
  {
    if i == |a| {
      WordSumShift(a, b, 0);
    } else {
      WordSumConcat(a, b, i + 2);
    }
  }

  lemma {:induction false} WordSumPad(bytes: seq<byte>, i: nat)
    requires |bytes| % 2 == 1 && i % 2 == 0 && i <= |bytes| + 1
    ensures WordSumFrom(bytes + [0], i) == WordSumFrom(bytes, i)
    decreases |bytes| - i
  {
    if i < |bytes| {
      WordSumPad(bytes, i + 2);
    }
  }

  /** Writes a 16-bit field at offset `k`. */
  function Put16(bytes: seq<byte>, k: nat, v: u16): (r: seq<byte>)
    requires k + 1 < |bytes|
    ensures |r| == |bytes|
  {
    bytes[k := v / 0x100][k + 1 := v % 0x100]
  }

  lemma {:induction false} WordSumPut(bytes: seq<byte>, k: nat, v: u16, i: nat)
    requires k % 2 == 0 == i % 2 && k + 1 < |bytes|
    ensures WordSumFrom(Put16(bytes, k, v), i) == WordSumFrom(Put16(bytes, k, 0), i) + if i <= k then v else 0
    decreases |bytes| - i
  {
    if i < |bytes| {
      WordSumPut(bytes, k, v, i + 2);
    }
  }

  /** The checksum to store in a region whose checksum field is still zero. */
  function Checksum(bytes: seq<byte>): (r: u16) {
    0xffff - EndAroundSum(bytes)
  }

  /** 0 and 0xffff are the same ones'-complement number; transport checksums are sent as the latter. */
  function NonZero(c: u16): (r: u16) {
    if c == 0 then 0xffff else c
  }

  /**
   Storing the checksum makes the region verify, whatever even-length pseudo-header is
   summed in front, for odd and even region lengths and with or without the 0 to 0xffff substitution.
   */
  lemma StoredChecksumVerifies(pseudo: seq<byte>, region: seq<byte>, k: nat, c: u16)
    requires |pseudo| % 2 == 0 && k % 2 == 0 && k + 1 < |region|
    requires var z := Checksum(pseudo + Put16(region, k, 0)); c == z || c == NonZero(z)
    ensures Verifies(pseudo + Put16(region, k, c))
  {
    FoldedSum(pseudo + Put16(region, k, 0));
    FoldedSum(pseudo + Put16(region, k, c));
    StoredSum(pseudo, region, k, c);
    FoldedComplement(WordSum(pseudo + Put16(region, k, 0)), c);
  }

  lemma StoredSum(pseudo: seq<byte>, region: seq<byte>, k: nat, c: u16)
    requires |pseudo| % 2 == 0 && k % 2 == 0 && k + 1 < |region|
    ensures WordSum(pseudo + Put16(region, k, c)) == WordSum(pseudo + Put16(region, k, 0)) + c
  {
    WordSumConcat(pseudo, Put16(region, k, 0), 0);
    WordSumConcat(pseudo, Put16(region, k, c), 0);
    WordSumPut(region, k, c, 0);
  }

  /** A sum and the complement of its ones'-complement value add up to all ones. */
  lemma FoldedComplement(sum: nat, c: u16)
    requires c == 0xffff - Folded(sum) || c == NonZero(0xffff - Folded(sum))
    ensures Folded(sum + c) == 0xffff
  {
  }

  /** One turn of the carry-folding loop keeps the ones'-complement value and shrinks the sum. */
  lemma FoldOnce(n: nat)
    requires n >= 0x1_0000
    ensures n % 0x1_0000 + n / 0x1_0000 < n
    ensures Folded(n % 0x1_0000 + n / 0x1_0000) == Folded(n)
  {
    var hi, lo := n / 0x1_0000, n % 0x1_0000;
    assert n - 1 == lo + hi - 1 + 0xffff * hi;
    SameRemainder(lo + hi - 1, hi);
  }

  lemma SameRemainder(m: nat, k: nat)
    ensures (m + 0xffff * k) % 0xffff == m % 0xffff
  {
  }

  /** The longest input whose word sum is sure to fit the 32-bit accumulator. */
  const MAX_SUMMED_BYTES: nat := 131074

  /** `ones_complement_sum`. Every caller in the forwarder meets the length bound, so `sum` never overflows. */
  method OnesComplementSum(bytes: seq<byte>) returns (r: u16)
    requires |bytes| <= MAX_SUMMED_BYTES
    ensures r == Checksum(bytes)
  {
    var sum: u32 := SumWords(bytes);
    FoldedSum(bytes);
    while sum / 0x1_0000 != 0
      invariant Folded(sum) == EndAroundSum(bytes)
      decreases sum
    {
      FoldOnce(sum);
      sum := sum % 0x1_0000 + sum / 0x1_0000;
    }
    r := 0xffff - sum;
  }

  /** The accumulating loop of `ones_complement_sum`. */
  method SumWords(bytes: seq<byte>) returns (sum: u32)
    requires |bytes| <= MAX_SUMMED_BYTES
    ensures sum == WordSum(bytes)
  {
    sum := 0;
    var i: nat := 0;
    WordSumBound(bytes, 0);
    while i + 1 < |bytes|
      invariant i <= |bytes|
      invariant sum + WordSumFrom(bytes, i) == WordSum(bytes)
    {
      sum := sum + (0x100 * (bytes[i] as int) + bytes[i + 1]);
      i := i + 2;
    }
    if i < |bytes| {
      sum := sum + 0x100 * (bytes[i] as int);
    }
  }

  /** The bound is exact: two bytes more and an all-ones input overflows the accumulator. */
  lemma AccumulatorBoundIsTight(bytes: seq<byte>)
    ensures |bytes| <= MAX_SUMMED_BYTES ==> WordSum(bytes) < 0x1_0000_0000
    ensures |bytes| == MAX_SUMMED_BYTES + 2 && (forall i | 0 <= i < |bytes| :: bytes[i] == 0xff)
            ==> WordSum(bytes) >= 0x1_0000_0000
  {
    WordSumBound(bytes, 0);
    if |bytes| == MAX_SUMMED_BYTES + 2 && (forall i | 0 <= i < |bytes| :: bytes[i] == 0xff) {
      AllOnes(bytes, 0);
    }
  }

  lemma {:induction false} AllOnes(bytes: seq<byte>, i: nat)
    requires |bytes| % 2 == 0 == i % 2 && i <= |bytes| && forall j | 0 <= j < |bytes| :: bytes[j] == 0xff
    ensures WordSumFrom(bytes, i) == 0xffff * ((|bytes| - i) / 2)
    decreases |bytes| - i
  {
    if i < |bytes| {
      AllOnes(bytes, i + 2);
    }
  }
}
