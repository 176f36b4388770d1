# MD5 multi-collision builder, modelled in Dafny

The modelled system builds files with many MD5 collisions at once.

- `md5.py` is a from-scratch MD5 that exposes its internals: the running chaining value (IHV) of an incremental hasher.
- `coll.py` has a stateful `Collider`. It appends data and pads it to 64-byte blocks. At each *choice point* it asks a chosen-prefix collision finder (`collide`, which wraps the external `fastcoll` tool) for two 128-byte blocks that, chained from the current IHV, both reach one common chaining value. It then enumerates every combination of the recorded pairs. When every choice point is block-aligned, all outputs have one common length and one common MD5 digest.

The project has three modules:

- `wrappers.dfy` (`Wrappers`): `Option`, the stand-in for Python's `None`.
- `md5.dfy` (`Md5`): the byte/word conversions, the hex codec, the constants, the four non-linear functions written out bit by bit, and the rotation. Also the 64 rounds and the compression function, chaining over whole blocks, RFC 1321 padding and the digest. The class `MD5` holds the same fields as the Python object, plus two ghost fields: the start value `iv` and the bytes consumed so far. `Valid()` ties the real fields to those ghost fields.
- `coll.dfy` (`Coll`): `md5pad`, `md5lpad` and the substring block filter. `collide` is an abstract *oracle*: a function from an IHV and an attempt number to a pair of blocks, which must be a collision. The class `Collider` has the fields of the Python object.

The central results:

- Resuming `update` after `digest` is the same as never calling `digest`.
- Every round of the compression is invertible.
- When every choice point is block-aligned, every output of `get_collisions` has the length and the MD5 digest of the stream the running hasher consumed.
- `get_collisions` enumerates choice vectors in binary-counting order, in either bit order, and no two of its outputs are equal.

Integers are unbounded: every 32-bit wrap-around of the source (`mod32bit`, `~x`) is written out with `Mod32` and `Not32`.

Two edge cases of `get_collisions` follow the code:

- `get_collisions(count)` treats `count == 0` like `None` and yields all `2^n` outputs (coll.py:158-159).
- A negative `count` yields nothing (coll.py:162-163).

## Model

| member | source | states |
|---|---|---|
| Md5.IntToWord | md5.py:20 | four bytes, which `word_to_int` reads back as the same word |
| Md5.IntToWordOfWordToInt | md5.py:19-20 | reading four bytes as a word and writing it back gives the same bytes |
| Md5.WordIsLittleEndian | md5.py:19-20 | `word_to_int` is the little-endian value of its four bytes, and `int_to_word` writes a word as its four little-endian bytes |
| Md5.WordsToBinLength | md5.py:18 | joining `n` four-byte words gives `4 n` bytes |
| Md5.WordsToBinOfBinToWords | md5.py:17-18 | joining the words of a string whose length is a multiple of 4 gives the string back |
| Md5.BinToWordsOfWordsToBin | md5.py:17-18 | splitting a join of 4-byte words gives the words back |
| Md5.BinToIntAt | md5.py:21 | word `i` of `bin_to_int(x)` is the little-endian value of bytes `4i .. 4i+4` |
| Md5.IntToBinAt | md5.py:22 | bytes `4i .. 4i+4` of `int_to_bin(w)` are word `i` written little-endian |
| Md5.IntToBinOfBinToInt | md5.py:21-22 | `int_to_bin(bin_to_int(x)) == x` for every `x` whose length is a multiple of 4 |
| Md5.BinToIntOfIntToBin | md5.py:21-22 | `bin_to_int(int_to_bin(w)) == w` for every list of 32-bit words |
| Md5.Mod32IsMod | md5.py:23 | `Mod32` is `x % 2**32` with Python's non-negative remainder, negative `x` included |
| Md5.Hexlify | md5.py:116 | two lower-case hex digits per byte |
| Md5.Unhexlify | md5.py:28 | a result exactly when the text has even length and only hex digits of either case, with one byte per two digits; `None` where `unhexlify` raises |
| Md5.UnhexlifyOfHexlify | md5.py:116 | decoding the hex text of a byte string gives the bytes back |
| Md5.HexlifyOfUnhexlify | md5.py:28 | every even-length lower-case hex text decodes, and encoding the bytes gives the text back |
| Md5.Ihv0Hex | md5.py:27-28 | `hexlify` of the 16 initial bytes is `IHV0_HEX`, and `unhexlify(IHV0_HEX)` gives those bytes |
| Md5.Ihv0OfBytes | md5.py:27-28 | `IHV0` is what `bin_to_int` reads from the 16 bytes `unhexlify(IHV0_HEX)` gives, and `int_to_bin(IHV0)` gives those bytes back |
| Md5.RcOfRound | md5.py:38 | `RC` has 64 entries; entry `i` is entry `i % 4` of the four-amount group of its 16 rounds, and every amount is between 1 and 31 |
| Md5.Not32 | md5.py:41-44 | the value used for `~x` is the low 32 bits of Python's `-x - 1` |
| Md5.FBits | md5.py:41 | in each of the 32 bit positions `F` is the conditional "if x then y else z"; no higher bit is set |
| Md5.GBits | md5.py:42 | in each bit position `G` is "if z then x else y"; no higher bit is set |
| Md5.HBits | md5.py:43 | in each bit position `H` is the parity of the three bits; no higher bit is set |
| Md5.IBits | md5.py:44 | in each bit position `I` is `y` xor (`x` or not `z`); no higher bit is set |
| Md5.RoundGroups | md5.py:45-52 | round `i` uses entry `i // 16` of `F`, `G`, `H`, `I` and of `M1` .. `M4`; its message index is `Mx[i](i)` and its rotation lies between 1 and 31 |
| Md5.Wx | md5.py:47-53 | round `i` reads a message word below 16, and round `i` of the first group reads word `i` |
| Md5.WxRoundOf | md5.py:47-53 | each group of 16 rounds reads every one of the 16 message words, so each exactly once |
| Md5.RotRightOfRotLeft | md5.py:24 | rotating a word left by `n` bits then right by `n` bits gives it back |
| Md5.RotLeftIsShift | md5.py:24 | for `0 < n < 32`, the rotation is `(x << n) % 2**32 + (x >> (32 - n))` |
| Md5.RotLeftIsShiftOr | md5.py:24 | for `0 < n < 32`, the rotation is the source's unmasked shift-or `rotleft` reduced modulo 2^32 |
| Md5.RoundStepInverse | md5.py:56 | for any value `f` of the non-linear function, any added constant `k` and any rotation, the oldest word `a` is recovered from the new word `RoundQNext` computes, the first word, `f` and `k` |
| Md5.RoundPrevOfRound | md5.py:56 | a round shifts the state along by one, and `RoundPrev` undoes it: the dropped word is recovered from the new state |
| Md5.DoRoundsFront | md5.py:57 | running the rounds is running the first one and then the rest, the recursion from round `i` to round `i + 1` |
| Md5.UndoRoundsOfDoRounds | md5.py:57 | for a fixed message block, the rounds run backwards give back the starting state |
| Md5.FeedBackOfFeedForward | md5.py:58 | word-wise subtraction modulo 2^32 undoes the feed-forward addition |
| Md5.FeedForwardRecoversInput | md5.py:58 | the output of `MD5CompressionInt` minus its input is the state after the 64 rounds, and the input is recovered from it by running the rounds backwards |
| Md5.ArrUs | md5.py:59-60 | `arrUs` is a right inverse of `arrSh` |
| Md5.ArrUsOfArrSh | md5.py:59-61 | `arrUs` undoes `arrSh`, so `MD5Compression` hands the rounds `[b, c, d, a]` and returns `[a, b, c, d]` |
| Md5.MD5CompressionFeedsForward | md5.py:58-61 | word `k` of `MD5Compression(ihv, b)` is `ihv[k]` plus word `k` of the rounds' output, modulo 2^32, and knowing the block the input is recovered from the output |
| Md5.ChainStep | md5.py:94-96 | one turn of the update loop: with at least 64 bytes, the first block is compressed and the loop goes on with the rest |
| Md5.ChainBlocksConcat | md5.py:94-96 | compressing an aligned prefix and then the rest gives the same chaining value as compressing both at once |
| Md5.ChainBlocksAppendBlock | md5.py:94-96 | one more whole block costs exactly one compression |
| Md5.ChainBlocksIgnoresTail | md5.py:94-96 | fewer than 64 trailing bytes stay in the buffer and do not move the chaining value |
| Md5.ChainBuffered | md5.py:107-109 | continuing from the current IHV with the buffered bytes and then more data is the same as hashing everything consumed plus that data |
| Md5.PaddedLength | md5.py:103 | `zerolen` is below 64, and data, the 0x80 byte, `zerolen` zeros and the 8-byte length end on a block boundary |
| Md5.Padding | md5.py:100-105 | the padding starts with 0x80, then zero bytes, then the 8-byte length; it has 9 to 72 bytes and ends the message on a block boundary |
| Md5.LengthField | md5.py:105 | the 8-byte little-endian field holds the bit count modulo 2^64 (see Findings) |
| Md5.LengthFieldAgrees | md5.py:105 | where `to_bytes(8)` does not raise it gives exactly `LengthField` |
| Md5.LengthFieldOverflows | md5.py:105 | for 2^61 message bytes `to_bytes(8)` raises, while RFC 1321 keeps the low 64 bits |
| Md5.MD5.constructor | md5.py:84-89 | a fresh hasher starts at IHV0 and has consumed exactly `data` |
| Md5.MD5.Update | md5.py:91-96 | the data is appended to what was consumed, fewer than 64 bytes stay buffered, the bit count grows by `8 * len(data)`, and the IHV is the chain over every whole block |
| Md5.MD5.Digest | md5.py:98-112 | the digest is the MD5 of everything consumed, and the hasher is left unchanged |
| Md5.MD5.HexDigest | md5.py:115-116 | 32 lower-case hex digits of the digest of everything consumed |
| Md5.MD5.Ihv | md5.py:118-119 | the IHV as 16 bytes: the chain over the whole blocks consumed, and the starting IHV while fewer than 64 bytes were consumed; `bin_to_int` of it is the hasher's IHV |
| Md5.MD5.HexIhv | md5.py:121-131 | the hex of that IHV; for a hasher started from IHV0 that has consumed fewer than 64 bytes it is `IHV0_HEX`, as the doctests say |
| Md5.HashingResume | md5.py:98-112 | taking a digest midway and then updating gives the digest of the whole input, for every split point |
| Md5.DigestThenUpdate | md5.py:98-112 | a `digest()` call between two updates does not change the final digest |
| Md5.IhvIndependentOfSplit | md5.py:91-96 | the IHV depends only on the bytes consumed, not on how they were split across `update` calls |
| Coll.DigestAfterAligned | md5.py:98-112 | the MD5 digest of a block-aligned prefix followed by a tail depends on the prefix only through its chaining value |
| Coll.Repeat | coll.py:46 | `ch * n` has `n * len(ch)` bytes, each one equal to `ch[0]` when `ch` is a single byte |
| Coll.Md5lpad | coll.py:41-46 | `(-l) mod 64` copies of `ch`; nothing when `l` is aligned; a single-byte `ch` completes the block |
| Coll.PadCount | coll.py:42-45 | the `c`/`padl` computation yields `(-l) mod 64` and reaches the next block boundary |
| Coll.Md5pad | coll.py:38-39 | `md5pad(b)` takes `b` to a block boundary, and is empty when `b` already ends on one |
| Coll.Contains | coll.py:53 | `e in b` holds exactly when `e` occurs in `b` at some position |
| Coll.FilterDisallowBinstrings | coll.py:50-54 | the filter passes a block exactly when none of the strings occurs in it |
| Coll.Retry | coll.py:138-141 | the loop takes the first answer of `collide` whose two blocks pass the filter, after rejecting every earlier one |
| Coll.BlocksOfZeroCode | coll.py:167 | the all-zero choice vector selects the first block at every choice point; a vector that selects the first blocks is zero wherever the two blocks differ |
| Coll.ZipJoinIsInterleaving | coll.py:168-169 | `zip_longest` with one more segment than blocks joins to segment, block, ..., block, segment |
| Coll.BincatKeeps | coll.py:108-112 | appending to the last segment extends the stream and keeps every recorded collision and its alignment |
| Coll.DivergePrefixes | coll.py:135-145 | a new segment keeps the bytes before every earlier choice point, and the new choice point follows the whole stream |
| Coll.DivergeRecords | coll.py:139-145 | the pairs stay collisions from their chaining values exactly when the new pair collides from the current IHV |
| Coll.DivergeAligns | coll.py:135-145 | opening a choice point keeps every choice point block-aligned exactly when the stream so far is aligned |
| Coll.PadDivergeAligns | coll.py:133-145 | after padding, opening a choice point keeps every choice point aligned exactly when the padded stream ends on a block boundary |
| Coll.ChoiceStep | coll.py:167-169 | either block of a colliding pair carries equal chaining values past one choice point |
| Coll.BranchesChainAlike | coll.py:167-169 | every choice vector reaches each choice point with the length and chaining value of the first-branch stream |
| Coll.SameTailSameDigest | coll.py:169 | aligned streams of one length and one chaining value, followed by the same bytes, have one MD5 digest |
| Coll.AllItemsCollide | coll.py:156-170 | with every choice point aligned, every choice vector's output has the length and MD5 digest of the stream the hasher consumed |
| Coll.Product | coll.py:161 | `product(range(2), repeat=n)` has `2^n` tuples of length `n` |
| Coll.ProductIsCounting | coll.py:161 | tuple `i` of the product is `i` in binary, most significant bit first |
| Coll.ReversedTwice | coll.py:164-165 | `tuple(reversed(...))` applied twice gives the tuple back |
| Coll.SelectionReversed | coll.py:164-165 | reversing the most-significant-first choice vector of `i` gives its least-significant-first one |
| Coll.TupleIsSelection | coll.py:161-165 | the `i`-th choice vector is `i`'s bits with the last choice point least significant, or reversed when `lsb_last` is false |
| Coll.ItemZero | coll.py:161-169 | output 0 takes the first block everywhere, so it is the stream the hasher consumed |
| Coll.SelectionInjective | coll.py:161-165 | different numbers below `2^n` get different choice vectors, in either bit order |
| Coll.ItemDeterminesCode | coll.py:167-169 | when every pair offers two different blocks of one length, the output file determines the choice vector |
| Coll.ItemsDistinct | coll.py:161-169 | with every recorded pair two different colliding blocks, the outputs for two different choice numbers differ |
| Coll.OutputsPointwise | coll.py:161-169 | output `i` is `Item` of the `i`-th choice vector `Selection(n, i)`: the segments joined with the blocks that vector picks |
| Coll.OutputsCollide | coll.py:156-170 | output 0 is the consumed stream; with no choice points the only output is the data; with aligned choice points all outputs collide |
| Coll.Limit | coll.py:158-163 | the number of outputs is `min(count, 2^n)`, all `2^n` for `None` or 0, and none for a negative count |
| Coll.Enumerate | coll.py:161-170 | the loop yields output `i` for each `i` below `Limit(count, n)`, in order |
| Coll.OrDefaultChoice | coll.py:120-121 | `if not pad: pad = self.pad` keeps a given argument and takes the default for a missing one; the result is empty only when both are, and defaulting twice is defaulting once |
| Coll.Collider.constructor | coll.py:93-106 | one segment holding `data`, no choice points, `dlen == len(data)`, and a hasher that has consumed `data` |
| Coll.Collider.Bincat | coll.py:108-112 | data goes to the last segment, `dlen` and the hasher; recorded collisions and alignment are kept |
| Coll.Collider.Strcat | coll.py:114-116 | as `bincat`, on the encoded bytes |
| Coll.Collider.Padnow | coll.py:118-123 | appends `md5lpad(dlen, pad or self.pad)`; a one-byte pad leaves the stream block-aligned |
| Coll.Collider.Diverge | coll.py:125-145 | pads, opens a segment, records the first accepted answer to the padded stream's IHV, and feeds its first block to the hasher; earlier answers were rejected |
| Coll.Collider.OpenChoicePoint | coll.py:135-145 | from the current IHV: one new empty segment, one new accepted pair, 128 more bytes; alignment kept exactly when the stream was aligned |
| Coll.Collider.AssertAligned | coll.py:147-149 | passes exactly when the stream ends on a block boundary |
| Coll.Collider.SafeDiverge | coll.py:151-154 | fails and changes nothing unless the stream is aligned; otherwise diverges with no padding. Either way the hasher object, the default pad and filter stay, and every choice point is aligned afterwards exactly when it was before |
| Coll.Collider.GetCollisions | coll.py:156-170 | `Limit(count, n)` outputs in counting order; output 0 is the consumed stream; no two outputs are equal; all outputs collide when the choice points are aligned |
| Coll.Collider.CollisionsRepeatable | coll.py:156-170 | enumerating twice with the same arguments gives the same outputs |
| Coll.Collider.GetLastColl | coll.py:172-174 | the last recorded pair, a collision from the stream before it; `None` where Python raises `IndexError` on an empty list |

## Left out

- Fetching and compiling `fastcoll` (coll.py:13-34), and the body of `collide` (coll.py:58-86): these are network, file and process I/O. `collide` is a parameter, an `Oracle`. It is required to return two different 128-byte blocks that collide from the IHV it is given: the "block alternatives" its docstring promises, which `fastcoll` produces.
- Randomness of `fastcoll`: the attempt number stands in for "the next call gives a new answer". `diverge` loops forever if no answer passes the filter, so `Diverge` requires that some answer passes.
- Coll.Collider.Diverge: its `ensures` does not say whether choice points stay aligned. `Coll.PadDivergeAligns` states that for any pad, and `Coll.Collider.OpenChoicePoint` states it after padding.
- `Strcat`: `str.encode()` (UTF-8) is not modelled. Its argument is the already-encoded bytes. The constructor's `type(data) == str` test is dropped for the same reason.
- Coll.Collider.constructor: it builds the hasher from `data` in one step instead of `MD5()` followed by `bincat(data)`. The resulting state is the same.
- `get_collisions` is a generator. `GetCollisions` returns the list of the `Limit(count, n)` outputs it would yield. `Enumerate` builds all 2^n tuples of `Product(n)` up front, where `itertools.product` yields them one at a time. Laziness and restarting are not modelled.
- Arguments that Python defaults to `None`: an empty `pad` stands for a missing pad, as Python's `not pad` treats both alike. A missing `blockfilter` or `count` is `Option.None`.
- `assert_aligned` and `safe_diverge` raise `AssertionError` on an unaligned stream. `AssertAligned` and `SafeDiverge` return `false` instead and change nothing.
- Block filters are total functions from bytes to `bool`. Filters that raise are not modelled.
- Md5.Padding: it uses the corrected length field (see Findings). For messages below 2^61 bytes, `Md5.LengthFieldAgrees` shows it equals the code as written.
- The bitwise `&`, `|`, `^` are defined bit by bit on the low 32 bits. Python's `~x` is negative; `Md5.Not32` is its value modulo 2^32, which is all that reaches a result. `rotleft` is unmasked in the source; `RotLeft` is the 32-bit rotation, and `Md5.RotLeftIsShiftOr` proves it equals the source's 64-bit shift-or reduced modulo 2^32, the only form `RoundQNext` uses.
- `AC` (md5.py:35) is written as the 64 literal words of table T of RFC 1321, not computed with floating-point `sin`.
- `DoRounds` recurses by peeling off the last round, where the source recurses from round `i` to `i + 1`. `Md5.DoRoundsFront` proves the two recursions agree. The update loop's chain is written as the three mutually recursive steps `ChainBlocks`, `ChainSplit` and `ChainCompress`, one per line of md5.py:94-96.
- The doctests of md5.py:68-81 and md5.py:124-129 compare concrete digests of test strings. These concrete MD5 values are not evaluated.
- The `md5()` wrapper (md5.py:133-134) is `new MD5(data)`. The `__main__` test driver and the driver scripts that use `Collider` are not part of this model.

## Findings

| source | as written | input that shows it | evidently intended | confidence | as-written member | corrected member |
|---|---|---|---|---|---|---|
| md5.py:105 | `(total_bytes * 8).to_bytes(8, 'little')` raises `OverflowError` when the bit count needs more than 64 bits | a message of 2^61 bytes (2^64 bits) | section 3.2 of RFC 1321: append the low-order 64 bits of the bit length | not executed | Md5.LengthFieldOverflows | Md5.LengthField |
