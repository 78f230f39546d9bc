# Secure random generator — a hash-chain model

The system is a small pseudo-random generator. It is seeded with a four-digit user number,
mixed at construction with a clock reading and sixteen bytes of operating-system randomness,
and then advanced only by repeated SHA-256 hashing. A `SecureRandomGenerator` object holds three
things:

- the validated user seed;
- a counter that starts at 0;
- a 32-byte digest.

Each 32-bit draw hashes the digest followed by the counter, written as 8 big-endian bytes.
The hash becomes the new digest, the counter goes up by one, and the first 4 bytes of the new
digest are returned as a big-endian integer. A hex string of length n is built by drawing words
until at least n characters have been collected. Each word contributes its 8-character,
zero-padded, lower-case hexadecimal form, and the result is cut to n characters.

The model has four modules.

- `Bytes` (`bytes.dfy`) covers byte strings and Python's `int.to_bytes(n, 'big')` and
  `int.from_bytes(b, 'big')`, with their round trips, and `str.encode()` for ASCII text.
- `Numerals` (`numerals.dfy`) covers digit strings: `str(x)`, `format(x, 'x')`, the padded
  `f'{x:08x}'` and `bytes.hex()`. It includes the parser that reads a digit string back.
- `HashChain` (`hash_chain.dfy`) holds the chain as pure specification functions:
  - one step of the chain;
  - the digest after k steps (`ChainState`);
  - the k words drawn (`ChainWords`);
  - their concatenated hex forms (`HexStream`);
  - what `generate_hex_string(n)` returns (`HexStringOf`).

  It also holds the lemmas about these functions.
- `SecureRandom` (`secure_random_generator.dfy`) holds the class `SecureRandomGenerator`. Its
  fields are the constant `userSeed`, the constant hash function `sha256`, and the mutable
  `counter` and `state`. Its methods are proved against the `HashChain` functions.
  - `Generate32Bit` updates the two mutable fields in place.
  - `GenerateHexString` runs the source's `while` loop. The loop invariants tie `counter`,
    `state` and the growing `result` to `ChainState` and `HexStream` after k draws.

SHA-256 is a parameter of type `HashFunction`: any function from byte strings to 32-byte
strings. Every statement here therefore holds whatever the hash computes. The clock reading and
the random bytes read at construction are parameters of `New` too.

Where the design notes and the code differ, the model follows the code. The design calls a
negative hex length an `InvalidArgument` error. The code instead skips the loop and returns
`''[:length]`, the empty string, without drawing. The model does the same: `WordsFor` is 0 for
any length of 0 or less, and `Prefix` is Python's slice, negative bounds included.

## Model

| member | source | states |
|---|---|---|
| Bytes.ToBytesBE | secure_random_generator.py:39 | `to_bytes(n, 'big')` of a value below 256^n is exactly n bytes long |
| Bytes.FromBytesBE | secure_random_generator.py:46 | `from_bytes(b, 'big')` of k bytes is below 256^k |
| Bytes.FromToBytesBE | secure_random_generator.py:39 | decoding the n-byte big-endian encoding of x gives x back, for every x below 256^n |
| Bytes.ToFromBytesBE | secure_random_generator.py:46 | re-encoding a decoded byte string at its own width gives the same bytes |
| Bytes.ToBytesBEInjective | secure_random_generator.py:39 | two values below 256^n have the same n-byte encoding if and only if they are equal |
| Bytes.AsciiEncodeInjective | secure_random_generator.py:33-34 | two ASCII texts encode to the same bytes if and only if they are the same text |
| Numerals.DigitChar | secure_random_generator.py:53 | the character for a digit below 16 is a lower-case hex digit that reads back as that digit |
| Numerals.ToDigitsAreDigits | secure_random_generator.py:33 | `str(x)` and `format(x, 'x')` are non-empty and made only of lower-case digits below the base |
| Numerals.FromToDigits | secure_random_generator.py:33 | reading the printed digits of x in any base from 2 to 16 gives x |
| Numerals.ToDigitsLength | secure_random_generator.py:23-24 | a number below base^k prints in at most k digits, and in exactly k when it is at least base^(k-1); so a seed in 1000..9999 prints as four decimal digits |
| Numerals.FormatHexRoundTrip | secure_random_generator.py:53 | for x below 16^w, `f'{x:0wx}'` has exactly w characters, all lower-case hex, and reads back as x |
| Numerals.BytesHex | secure_random_generator.py:33 | `bytes.hex()` gives two lower-case hex characters per byte |
| Numerals.BytesHexInjective | secure_random_generator.py:33 | byte strings of one length have the same `hex()` form if and only if they are equal |
| HashChain.CounterBytes | secure_random_generator.py:39 | the counter is written as exactly 8 bytes, for every counter below 2^64 |
| HashChain.CounterBytesRoundTrip | secure_random_generator.py:39 | the 8 counter bytes decode back to the counter |
| HashChain.Word | secure_random_generator.py:46 | the integer of the first 4 digest bytes is below 2^32 |
| HashChain.WordRoundTrip | secure_random_generator.py:46 | the 4-byte big-endian encoding of the word is exactly the first 4 bytes of the digest |
| HashChain.ChainState | secure_random_generator.py:39-42 | every digest the chain reaches is 32 bytes long |
| HashChain.ChainWords | secure_random_generator.py:51-52 | k draws give k words, each below 2^32 |
| HashChain.WordsFor | secure_random_generator.py:51 | the loop's number of draws is the least k with 8k >= length: ceil(length / 8) for a positive length, 0 otherwise |
| HashChain.Prefix | secure_random_generator.py:54 | `s[:n]` is a prefix of s, n long when 0 <= n <= len(s), and shortened from the end for a negative n |
| HashChain.ChainWordsStep | secure_random_generator.py:52 | one more draw appends the word of the new digest to the words drawn so far |
| HashChain.ChainStateStep | secure_random_generator.py:39-43 | the digest after k+1 steps is the hash of the digest after k steps followed by the counter value c0+k it left |
| HashChain.ChainHexStep | secure_random_generator.py:51-53 | one more draw extends the hex text by the `08x` form of the new word, so 8(k+1) characters after k+1 draws |
| HashChain.ChainAdvance | secure_random_generator.py:51-53 | from the digest, counter and text reached after k draws, the next draw hashes that digest with that counter and appends its word's `08x` form |
| HashChain.ChainStateSplit | secure_random_generator.py:39-43 | a+b steps reach the digest that a steps followed by b more steps from there reach |
| HashChain.ChainWordsSplit | secure_random_generator.py:51-53 | the words of a+b draws are the words of the first a draws followed by the words of the next b, so the stream does not depend on how it is split between calls |
| HashChain.DistinctStepInputs | secure_random_generator.py:39 | no two steps of one chain hash the same bytes, because their trailing counters differ |
| HashChain.HexStreamShape | secure_random_generator.py:53 | the hex text of k 32-bit words is 8k lower-case hex characters, and block i reads back as word i |
| HashChain.HexStringShape | secure_random_generator.py:48-54 | `generate_hex_string(n)` has exactly max(n, 0) characters, all lower-case hex, and every whole 8-character block reads back as the word drawn for it |
| HashChain.HexStringOfWholeWords | secure_random_generator.py:51-54 | for n = 8k nothing is cut: k draws are made and the result is exactly the `08x` forms of the k words those draws return |
| SecureRandom.InitialText | secure_random_generator.py:33 | the text hashed at construction is ASCII, so `encode()` writes one byte per character |
| SecureRandom.InitialState | secure_random_generator.py:30-34 | the first digest is 32 bytes long |
| SecureRandom.InitialMessageInjective | secure_random_generator.py:33 | for valid seeds and 16 random bytes, two constructions hash the same bytes if and only if seed, clock reading and random bytes all agree |
| SecureRandom.SecureRandomGenerator.constructor | secure_random_generator.py:26-28 | a new generator keeps the seed and the hash, has counter 0 and starts from the given 32-byte digest |
| SecureRandom.SecureRandomGenerator.New | secure_random_generator.py:16-28 | construction fails with `InvalidSeed(seed)` exactly when the seed is outside 1000..9999; otherwise it gives a fresh generator with that seed, counter 0 and the digest of seed, clock reading and random bytes |
| SecureRandom.SecureRandomGenerator.Generate32Bit | secure_random_generator.py:36-46 | the digest becomes the hash of the old digest followed by the old counter, the counter goes up by exactly one, the seed and hash are unchanged, and the result is the word of the new digest, below 2^32 |
| SecureRandom.SecureRandomGenerator.AppendWord | secure_random_generator.py:51-53 | one pass of the loop keeps the invariant: after k+1 draws the counter is c0+k+1, the digest is the chain's (k+1)-th and the text is the `08x` forms of the first k+1 words |
| SecureRandom.SecureRandomGenerator.GenerateHexString | secure_random_generator.py:48-54 | the counter advances by exactly ceil(n/8) for n > 0 and by 0 otherwise; the digest is the chain's digest after those draws; the result is the n-character prefix of the concatenated `08x` words; it is exactly max(n, 0) long and all lower-case hex |

## Left out

- SHA-256 itself is not modelled. The hash is a parameter whose only known property is that
  it returns 32 bytes.
- `time.time_ns()` and `os.urandom(16)` are not called. Their values are parameters of `New`,
  the clock reading taken as non-negative.
- Counter overflow is a precondition, not an error path. `Generate32Bit` requires the counter
  below 2^64, and `GenerateHexString` requires room for all its draws. Python's
  `to_bytes(8, 'big')` would raise `OverflowError` beyond that point.
- `str.encode()` is modelled for ASCII text only. The hashed text is proved ASCII, so UTF-8
  and ASCII agree on it.
- The avalanche-effect test, the interactive demo and the `__main__` entry are not modelled.
  They are console programs that only use the generator.
- Probabilistic claims are not modelled: independent-looking outputs, distinct streams across
  constructions, and about half the bits differing between adjacent seeds. They depend on the
  strength of the hash and of the entropy sources, which a model with an arbitrary hash cannot
  express.
- `user_seed` is modelled as an integer. A non-integer argument, and Python's dynamic typing
  in general, are not modelled.
