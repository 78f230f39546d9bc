// The generator object: a validated user seed, a counter and a 32-byte digest that
// every draw replaces by the hash of itself followed by the counter.
module SecureRandom {
  import opened Bytes
  import opened Numerals
  import opened HashChain

  /** The ValueError raised for a seed outside 1000..9999. */
  datatype Error = InvalidSeed(seed: int)

  datatype Result<T> = Success(value: T) | Failure(error: Error)

  const MIN_SEED: int := 1000
  const MAX_SEED: int := 9999
  /** Bytes drawn from the operating system's random source at construction. */
  const ENTROPY_SIZE: nat := 16

  /** A four-digit seed, the only kind construction accepts. */
  predicate ValidSeed(seed: int)
  {
    MIN_SEED <= seed <= MAX_SEED
  }

  /** The text hashed at construction: the seed in decimal, the clock reading in
      nanoseconds in decimal, then the random bytes in lower-case hexadecimal. */
  function InitialText(seed: nat, timeNs: nat, entropy: seq<byte>): (t: string)
    ensures IsAscii(t)
  {
    ToDigitsAreDigits(seed, 10);
    ToDigitsAreDigits(timeNs, 10);
    var t := ToDigits(seed, 10) + ToDigits(timeNs, 10) + BytesHex(entropy);
    assert IsLowerHex(t);
    t
  }

  /** The bytes hashed at construction: the UTF-8 (here: ASCII) encoding of InitialText. */
  function InitialMessage(seed: nat, timeNs: nat, entropy: seq<byte>): seq<byte>
  {
    AsciiEncode(InitialText(seed, timeNs, entropy))
  }

  /** `_initialize_state`: the first digest, with the clock reading and the random bytes
      passed in rather than read. */
  function InitialState(h: HashFunction, seed: nat, timeNs: nat, entropy: seq<byte>): (d: seq<byte>)
    ensures |d| == DIGEST_SIZE
  {
    h(InitialMessage(seed, timeNs, entropy))
  }

  /** The seed takes the first four characters of the text, the random bytes the last
      thirty-two, and the clock reading what lies between, so the hashed message determines
      all three: a different clock reading or different random bytes give a different
      message to hash. */
  lemma InitialMessageInjective(s1: int, t1: nat, e1: seq<byte>, s2: int, t2: nat, e2: seq<byte>)
    requires ValidSeed(s1) && ValidSeed(s2)
    requires |e1| == ENTROPY_SIZE && |e2| == ENTROPY_SIZE
    ensures InitialMessage(s1, t1, e1) == InitialMessage(s2, t2, e2)
        <==> s1 == s2 && t1 == t2 && e1 == e2
  {
    var x, y := InitialText(s1, t1, e1), InitialText(s2, t2, e2);
    if InitialMessage(s1, t1, e1) == InitialMessage(s2, t2, e2) {
      AsciiEncodeInjective(x, y);
      PowConstants();
      ToDigitsLength(s1, 10, 4);
      ToDigitsLength(s2, 10, 4);
      var n := |x|;
      assert x[..4] == ToDigits(s1, 10) && y[..4] == ToDigits(s2, 10);
      FromToDigits(s1, 10);
      FromToDigits(s2, 10);
      assert x[n - 32..] == BytesHex(e1) && y[n - 32..] == BytesHex(e2);
      BytesHexInjective(e1, e2);
      assert x[4..n - 32] == ToDigits(t1, 10) && y[4..n - 32] == ToDigits(t2, 10);
      FromToDigits(t1, 10);
      FromToDigits(t2, 10);
    }
  }

  /** `SecureRandomGenerator`. The hash is a constant of each object, standing for
      `hashlib.sha256`. */
  class SecureRandomGenerator {
    const userSeed: int
    const sha256: HashFunction
    var counter: nat
    var state: seq<byte>

    ghost predicate Valid()
      reads this
    {
      ValidSeed(userSeed) && |state| == DIGEST_SIZE
    }

    /** The deterministic layer of construction: a checked seed and an explicit first digest. */
    constructor (userSeed: int, initialState: seq<byte>, sha256: HashFunction)
      requires ValidSeed(userSeed) && |initialState| == DIGEST_SIZE
      ensures Valid()
      ensures this.userSeed == userSeed && this.sha256 == sha256
      ensures counter == 0 && state == initialState
    {
      this.userSeed := userSeed;
      this.sha256 := sha256;
      counter := 0;
      state := initialState;
    }

    /** `__init__`: refuses a seed outside 1000..9999, otherwise starts at counter 0 from the
        digest of seed, clock reading and random bytes. */
    static method New(userSeed: int, timeNs: nat, entropy: seq<byte>, sha256: HashFunction)
      returns (r: Result<SecureRandomGenerator>)
      requires |entropy| == ENTROPY_SIZE
      ensures r.Failure? <==> !ValidSeed(userSeed)
      ensures r.Failure? ==> r.error == InvalidSeed(userSeed)
      ensures r.Success? ==> fresh(r.value) && r.value.Valid()
      ensures r.Success? ==> r.value.userSeed == userSeed && r.value.sha256 == sha256
      ensures r.Success? ==> r.value.counter == 0
      ensures r.Success? ==> r.value.state == InitialState(sha256, userSeed, timeNs, entropy)
    {
      if !(MIN_SEED <= userSeed <= MAX_SEED) {
        return Failure(InvalidSeed(userSeed));
      }
      var g := new SecureRandomGenerator(userSeed, InitialState(sha256, userSeed, timeNs, entropy), sha256);
      return Success(g);
    }

    /** `generate_32bit`: hashes the digest followed by the counter as 8 big-endian bytes,
        keeps the hash as the new digest, counts the draw and returns the first 4 bytes of
        the new digest as a big-endian integer. The counter must still fit in 8 bytes. */
    method Generate32Bit() returns (r: nat)
      requires Valid() && counter < TWO_64
      modifies this
      ensures Valid()
      ensures state == Step(sha256, old(state), old(counter))
      ensures counter == old(counter) + 1
      ensures r < TWO_32 && r == Word(state)
    {
      var data := state + CounterBytes(counter);
      state := sha256(data);
      counter := counter + 1;
      r := FromBytesBE(state[..WORD_SIZE]);
    }

    /** The body of the hex loop: one draw, appended in its `08x` form. */
    method AppendWord(result: string, ghost d0: seq<byte>, ghost c0: nat, ghost k: nat)
      returns (next: string)
      requires Valid() && |d0| == DIGEST_SIZE && counter == c0 + k && counter < TWO_64
      requires state == ChainState(sha256, d0, c0, k)
      requires result == HexStream(ChainWords(sha256, d0, c0, k))
      modifies this
      ensures Valid() && counter == c0 + k + 1
      ensures state == ChainState(sha256, d0, c0, k + 1)
      ensures next == HexStream(ChainWords(sha256, d0, c0, k + 1))
      ensures |next| == HEX_PER_WORD * (k + 1)
    {
      ChainAdvance(sha256, d0, c0, k, state, counter, result);
      var w := Generate32Bit();
      next := result + FormatHex(w, HEX_PER_WORD);
    }

    /** `generate_hex_string`: draws words until at least `length` hex characters are
        collected, eight per word, and returns the first `length` of them (32 when no length
        is given). A length of zero or less draws nothing and returns the empty string. */
    method GenerateHexString(length: int := 32) returns (r: string)
      requires Valid() && counter + WordsFor(length) <= TWO_64
      modifies this
      ensures Valid()
      ensures counter == old(counter) + WordsFor(length)
      ensures state == ChainState(sha256, old(state), old(counter), WordsFor(length))
      ensures r == HexStringOf(sha256, old(state), old(counter), length)
      ensures |r| == if length <= 0 then 0 else length
      ensures IsLowerHex(r)
    {
      ghost var d0, c0 := state, counter;
      ghost var k: nat := 0;
      var result := "";
      while |result| < length
        invariant Valid()
        invariant k <= WordsFor(length) && counter == c0 + k
        invariant state == ChainState(sha256, d0, c0, k)
        invariant result == HexStream(ChainWords(sha256, d0, c0, k))
        invariant |result| == HEX_PER_WORD * k
        decreases length - |result|
      {
        result := AppendWord(result, d0, c0, k);
        k := k + 1;
      }
      assert k == WordsFor(length);
      r := Prefix(result, length);
      HexStringShape(sha256, d0, c0, length);
    }
  }
}
