// The generator's hash chain as pure functions: one step hashes the digest followed by
// the 8-byte big-endian counter, the emitted word is the first 4 bytes of the new digest,
// and the hex stream is the concatenation of the words' `08x` forms.
module HashChain {
  import opened Bytes
  import opened Numerals

  /** Width of a SHA-256 digest, in bytes. */
  const DIGEST_SIZE: nat := 32
  /** Width of the counter as it is fed to the hash, in bytes. */
  const COUNTER_SIZE: nat := 8
  /** Width of an emitted word, in bytes. */
  const WORD_SIZE: nat := 4
  /** Characters of hexadecimal per emitted word. */
  const HEX_PER_WORD: nat := 8

  ghost predicate IsDigestFunction(h: seq<byte> -> seq<byte>)
  {
    forall m :: |h(m)| == DIGEST_SIZE
  }

  /** SHA-256, whose internals are not modelled: any function from byte strings to
      32-byte digests. Everything below holds for every such function. */
  type HashFunction = h: seq<byte> -> seq<byte> | IsDigestFunction(h)
    witness (m: seq<byte>) => seq(32, _ => 0)

  /** `counter.to_bytes(8, 'big')`: the counter as eight big-endian bytes. */
  function CounterBytes(counter: nat): (r: seq<byte>)
    requires counter < TWO_64
    ensures |r| == COUNTER_SIZE
  {
    PowConstants();
    ToBytesBE(counter, COUNTER_SIZE)
  }

  /** The counter bytes decode back to the counter. */
  lemma CounterBytesRoundTrip(counter: nat)
    requires counter < TWO_64
    ensures FromBytesBE(CounterBytes(counter)) == counter
  {
    PowConstants();
    FromToBytesBE(counter, COUNTER_SIZE);
  }

  /** The bytes hashed by one step: the whole digest, then the counter. */
  function StepInput(digest: seq<byte>, counter: nat): seq<byte>
    requires counter < TWO_64
  {
    digest + CounterBytes(counter)
  }

  /** The digest that replaces `digest` when the counter reads `counter`. */
  function Step(h: HashFunction, digest: seq<byte>, counter: nat): seq<byte>
    requires counter < TWO_64
  {
    h(StepInput(digest, counter))
  }

  /** `int.from_bytes(digest[:4], 'big')`: the word a digest yields, always below 2^32. */
  function Word(digest: seq<byte>): (w: nat)
    requires |digest| >= WORD_SIZE
    ensures w < TWO_32
  {
    PowConstants();
    FromBytesBE(digest[..WORD_SIZE])
  }

  /** The word is the integer whose 4 big-endian bytes open the digest. */
  lemma WordRoundTrip(digest: seq<byte>)
    requires |digest| >= WORD_SIZE
    ensures ToBytesBE(Word(digest), WORD_SIZE) == digest[..WORD_SIZE]
  {
    PowConstants();
    ToFromBytesBE(digest[..WORD_SIZE]);
  }

  /** The digest after k steps from digest d0 and counter c0. */
  function ChainState(h: HashFunction, d0: seq<byte>, c0: nat, k: nat): (d: seq<byte>)
    requires |d0| == DIGEST_SIZE && c0 + k <= TWO_64
    ensures |d| == DIGEST_SIZE
  {
    if k == 0 then d0 else Step(h, ChainState(h, d0, c0, k - 1), c0 + k - 1)
  }

  /** The k words emitted by k steps from digest d0 and counter c0, in order. */
  function ChainWords(h: HashFunction, d0: seq<byte>, c0: nat, k: nat): (ws: seq<nat>)
    requires |d0| == DIGEST_SIZE && c0 + k <= TWO_64
    ensures |ws| == k
    ensures forall i :: 0 <= i < k ==> ws[i] < TWO_32
  {
    if k == 0 then [] else ChainWords(h, d0, c0, k - 1) + [Word(ChainState(h, d0, c0, k))]
  }

  /** The `08x` forms of the words, concatenated. */
  function HexStream(ws: seq<nat>): string
  {
    if ws == [] then "" else HexStream(ws[..|ws| - 1]) + FormatHex(ws[|ws| - 1], HEX_PER_WORD)
  }

  /** How many words the hex loop draws for `length` characters: the least k with
      8 * k >= length, which is ceil(length / 8) for positive lengths and 0 otherwise. */
  function WordsFor(length: int): (k: nat)
    ensures HEX_PER_WORD * k >= length
    ensures k == 0 || HEX_PER_WORD * (k - 1) < length
  {
    if length <= 0 then 0 else (length + HEX_PER_WORD - 1) / HEX_PER_WORD
  }

  /** Python's `s[:n]`: the first n characters; a negative n drops |n| from the end. */
  function Prefix(s: string, n: int): (r: string)
    ensures r <= s
    ensures 0 <= n <= |s| ==> |r| == n
    ensures n < 0 ==> |r| == if |s| + n < 0 then 0 else |s| + n
  {
    if n >= 0 then (if n <= |s| then s[..n] else s)
    else if |s| + n < 0 then [] else s[..|s| + n]
  }

  /** What `generate_hex_string(length)` returns from digest d0 and counter c0. */
  function HexStringOf(h: HashFunction, d0: seq<byte>, c0: nat, length: int): string
    requires |d0| == DIGEST_SIZE && c0 + WordsFor(length) <= TWO_64
  {
    Prefix(HexStream(ChainWords(h, d0, c0, WordsFor(length))), length)
  }

  // ---------------------------------------------------------------------------
  // Properties of the chain

  /** One more step appends the word of the new digest. */
  lemma ChainWordsStep(h: HashFunction, d0: seq<byte>, c0: nat, k: nat)
    requires |d0| == DIGEST_SIZE && c0 + k < TWO_64
    ensures ChainWords(h, d0, c0, k + 1)
         == ChainWords(h, d0, c0, k) + [Word(ChainState(h, d0, c0, k + 1))]
  {
  }

  /** One more step hashes the digest reached so far with the counter `c` it left. */
  lemma ChainStateStep(h: HashFunction, d0: seq<byte>, c0: nat, k: nat, c: nat)
    requires |d0| == DIGEST_SIZE && c == c0 + k && c < TWO_64
    ensures ChainState(h, d0, c0, k + 1) == Step(h, ChainState(h, d0, c0, k), c)
  {
    assert c0 + (k + 1) - 1 == c;
  }

  /** One more step extends the hex stream by the `08x` form of the new digest's word. */
  lemma ChainHexStep(h: HashFunction, d0: seq<byte>, c0: nat, k: nat)
    requires |d0| == DIGEST_SIZE && c0 + k < TWO_64
    ensures HexStream(ChainWords(h, d0, c0, k + 1))
         == HexStream(ChainWords(h, d0, c0, k)) + FormatHex(Word(ChainState(h, d0, c0, k + 1)), HEX_PER_WORD)
    ensures |HexStream(ChainWords(h, d0, c0, k + 1))| == HEX_PER_WORD * (k + 1)
  {
    ChainWordsStep(h, d0, c0, k);
    var ws := ChainWords(h, d0, c0, k + 1);
    assert ws[..k] == ChainWords(h, d0, c0, k);
    HexStreamShape(ws);
  }

  /** From the digest `st`, the counter `c` and the hex text `hex` reached after k steps,
      one more step hashes `st` with `c` and appends the `08x` form of the new digest's word. */
  lemma ChainAdvance(h: HashFunction, d0: seq<byte>, c0: nat, k: nat, st: seq<byte>, c: nat, hex: string)
    requires |d0| == DIGEST_SIZE && c == c0 + k && c < TWO_64
    requires st == ChainState(h, d0, c0, k) && hex == HexStream(ChainWords(h, d0, c0, k))
    ensures ChainState(h, d0, c0, k + 1) == Step(h, st, c)
    ensures HexStream(ChainWords(h, d0, c0, k + 1)) == hex + FormatHex(Word(Step(h, st, c)), HEX_PER_WORD)
    ensures |HexStream(ChainWords(h, d0, c0, k + 1))| == HEX_PER_WORD * (k + 1)
  {
    ChainStateStep(h, d0, c0, k, c);
    ChainHexStep(h, d0, c0, k);
  }

  /** Running a + b steps ends in the digest reached by running a steps and then b more
      from where they left off. */
  lemma {:induction false} ChainStateSplit(h: HashFunction, d0: seq<byte>, c0: nat, a: nat, b: nat)
    requires |d0| == DIGEST_SIZE && c0 + a + b <= TWO_64
    ensures ChainState(h, d0, c0, a + b) == ChainState(h, ChainState(h, d0, c0, a), c0 + a, b)
    decreases b
  {
    if b > 0 {
      ChainStateSplit(h, d0, c0, a, b - 1);
    }
  }

  /** The words of a + b steps are the words of the first a steps followed by those of
      the next b: the stream does not depend on how it is split between calls. */
  lemma {:induction false} ChainWordsSplit(h: HashFunction, d0: seq<byte>, c0: nat, a: nat, b: nat)
    requires |d0| == DIGEST_SIZE && c0 + a + b <= TWO_64
    ensures ChainWords(h, d0, c0, a + b)
         == ChainWords(h, d0, c0, a) + ChainWords(h, ChainState(h, d0, c0, a), c0 + a, b)
    decreases b
  {
    if b > 0 {
      var mid := ChainState(h, d0, c0, a);
      ChainWordsSplit(h, d0, c0, a, b - 1);
      ChainStateSplit(h, d0, c0, a, b);
      var w := Word(ChainState(h, mid, c0 + a, b));
      AppendToSplit(ChainWords(h, d0, c0, a + (b - 1)),
        ChainWords(h, d0, c0, a), ChainWords(h, mid, c0 + a, b - 1), w);
    }
  }

  /** Appending to the right part of a split appends to the whole. */
  lemma AppendToSplit(whole: seq<nat>, front: seq<nat>, back: seq<nat>, w: nat)
    requires whole == front + back
    ensures whole + [w] == front + (back + [w])
  {
  }

  /** No two steps of one chain hash the same bytes: their trailing counters differ. */
  lemma DistinctStepInputs(h: HashFunction, d0: seq<byte>, c0: nat, i: nat, j: nat)
    requires |d0| == DIGEST_SIZE && c0 + i < TWO_64 && c0 + j < TWO_64 && i != j
    ensures StepInput(ChainState(h, d0, c0, i), c0 + i) != StepInput(ChainState(h, d0, c0, j), c0 + j)
  {
    var x := StepInput(ChainState(h, d0, c0, i), c0 + i);
    var y := StepInput(ChainState(h, d0, c0, j), c0 + j);
    assert x[DIGEST_SIZE..] == CounterBytes(c0 + i);
    assert y[DIGEST_SIZE..] == CounterBytes(c0 + j);
    CounterBytesRoundTrip(c0 + i);
    CounterBytesRoundTrip(c0 + j);
  }

  /** The hex stream of 32-bit words has 8 lower-case hex characters per word, and each
      8-character block reads back as its word. */
  lemma {:induction false} HexStreamShape(ws: seq<nat>)
    requires forall i :: 0 <= i < |ws| ==> ws[i] < TWO_32
    ensures |HexStream(ws)| == HEX_PER_WORD * |ws|
    ensures IsLowerHex(HexStream(ws))
    ensures forall i :: 0 <= i < |ws| ==>
      FromDigits(HexStream(ws)[HEX_PER_WORD * i..HEX_PER_WORD * (i + 1)], 16) == ws[i]
  {
    if ws != [] {
      var p, w := ws[..|ws| - 1], ws[|ws| - 1];
      HexStreamShape(p);
      PowConstants();
      FormatHexRoundTrip(w, HEX_PER_WORD);
      var x, y := HexStream(p), FormatHex(w, HEX_PER_WORD);
      assert HexStream(ws) == x + y;
      forall i | 0 <= i < |ws|
        ensures FromDigits((x + y)[HEX_PER_WORD * i..HEX_PER_WORD * (i + 1)], 16) == ws[i]
      {
        if i < |p| {
          SliceOfConcat(x, y, HEX_PER_WORD * i, HEX_PER_WORD * (i + 1));
          assert FromDigits(x[HEX_PER_WORD * i..HEX_PER_WORD * (i + 1)], 16) == p[i];
        } else {
          SliceOfConcatRight(x, y);
          assert |x| == HEX_PER_WORD * i && |x| + |y| == HEX_PER_WORD * (i + 1);
        }
      }
    }
  }

  /** A slice that ends within the left operand of a concatenation is a slice of it. */
  lemma SliceOfConcat(x: string, y: string, a: nat, b: nat)
    requires a <= b <= |x|
    ensures (x + y)[a..b] == x[a..b]
  {
  }

  /** The slice after the left operand of a concatenation is the right operand. */
  lemma SliceOfConcatRight(x: string, y: string)
    ensures (x + y)[|x|..|x| + |y|] == y
  {
  }

  /** `generate_hex_string(length)` returns exactly max(length, 0) lower-case hex characters,
      and every whole 8-character block of it reads back as the word drawn for it. */
  lemma HexStringShape(h: HashFunction, d0: seq<byte>, c0: nat, length: int)
    requires |d0| == DIGEST_SIZE && c0 + WordsFor(length) <= TWO_64
    ensures |HexStringOf(h, d0, c0, length)| == if length <= 0 then 0 else length
    ensures IsLowerHex(HexStringOf(h, d0, c0, length))
    ensures forall i :: 0 <= i && HEX_PER_WORD * (i + 1) <= length ==>
      FromDigits(HexStringOf(h, d0, c0, length)[HEX_PER_WORD * i..HEX_PER_WORD * (i + 1)], 16)
        == ChainWords(h, d0, c0, WordsFor(length))[i]
  {
    var ws := ChainWords(h, d0, c0, WordsFor(length));
    HexStreamShape(ws);
    var s := HexStream(ws);
    PrefixLowerHex(s, length);
    forall i | 0 <= i && HEX_PER_WORD * (i + 1) <= length
      ensures FromDigits(Prefix(s, length)[HEX_PER_WORD * i..HEX_PER_WORD * (i + 1)], 16) == ws[i]
    {
      PrefixSlice(s, length, HEX_PER_WORD * i, HEX_PER_WORD * (i + 1));
    }
  }

  /** Cutting lower-case hex text leaves lower-case hex text. */
  lemma PrefixLowerHex(s: string, n: int)
    requires IsLowerHex(s)
    ensures IsLowerHex(Prefix(s, n))
  {
    var r := Prefix(s, n);
    assert forall i :: 0 <= i < |r| ==> r[i] == s[i];
  }

  /** A prefix keeps the characters before the cut. */
  lemma PrefixSlice(s: string, n: int, a: nat, b: nat)
    requires a <= b <= n <= |s|
    ensures Prefix(s, n)[a..b] == s[a..b]
  {
  }

  /** For a multiple of 8 characters nothing is cut: k words give exactly their 8k
      hex characters, the same words k separate 32-bit draws return. */
  lemma HexStringOfWholeWords(h: HashFunction, d0: seq<byte>, c0: nat, k: nat)
    requires |d0| == DIGEST_SIZE && c0 + k <= TWO_64
    ensures WordsFor(HEX_PER_WORD * k) == k
    ensures HexStringOf(h, d0, c0, HEX_PER_WORD * k) == HexStream(ChainWords(h, d0, c0, k))
  {
    HexStreamShape(ChainWords(h, d0, c0, k));
  }
}
