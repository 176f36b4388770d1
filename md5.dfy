/**
  MD5 as in RFC 1321, built from the primitives of the standard and exposing its
  internal chaining value (IHV).

  As in the Python code, bytes and words are plain integers (below 2^8 and 2^32),
  and every sum of words is reduced modulo 2^32. The bitwise operations behind F, G,
  H and I are computed bit by bit on those integers.
  */
module Md5 {
  import opened Wrappers

  type Byte = x: int | 0 <= x < 256
  type Word = x: int | 0 <= x < 0x1_0000_0000

  const TWO_POW_32: nat := 0x1_0000_0000
  const TWO_POW_64: nat := 0x1_0000_0000_0000_0000

  // ---------------------------------------------------------------------------
  // Byte and word serialisation (md5.py:17-23)
  // ---------------------------------------------------------------------------

  /** Splits a byte string into consecutive 4-byte words, dropping a shorter tail. */
  function BinToWords(x: seq<Byte>): (r: seq<seq<Byte>>)
    ensures |r| == |x| / 4
    ensures forall i :: 0 <= i < |r| ==> r[i] == x[4 * i .. 4 * i + 4]
  {
    seq(|x| / 4, i requires 0 <= i < |x| / 4 => x[4 * i .. 4 * i + 4])
  }

  /** Concatenates byte strings (`b''.join`). */
  function WordsToBin(x: seq<seq<Byte>>): seq<Byte>
  {
    if |x| == 0 then [] else x[0] + WordsToBin(x[1..])
  }

  /** Reads 4 bytes as a little-endian word. */
  function WordToInt(x: seq<Byte>): Word
    requires |x| == 4
  {
    x[0] + 256 * (x[1] + 256 * (x[2] + 256 * (x[3] as int)))
  }

  /** Writes a word as 4 little-endian bytes. */
  function IntToWord(x: Word): (r: seq<Byte>)
    ensures |r| == 4
    ensures WordToInt(r) == x
  {
    WordDigits(x);
    [x % 256, (x / 256) % 256, (x / 0x1_0000) % 256, x / 0x100_0000]
  }

  /** The four base-256 digits of a word. */
  lemma WordDigits(x: Word)
    ensures x / 0x100_0000 < 256
    ensures x % 256 + 256 * ((x / 256) % 256 + 256 * ((x / 0x1_0000) % 256 + 256 * (x / 0x100_0000))) == x
  {
    var q1 := x / 256;
    var q2 := q1 / 256;
    var q3 := q2 / 256;
    assert x == x % 256 + 256 * q1;
    assert q1 == q1 % 256 + 256 * q2;
    assert q2 == q2 % 256 + 256 * q3;
    assert x / 0x1_0000 == q2;
    assert x / 0x100_0000 == q3;
  }

  lemma DivMod256(lo: Byte, hi: nat)
    ensures (lo + 256 * hi) % 256 == lo && (lo + 256 * hi) / 256 == hi
  {
  }

  /** Reading 4 bytes as a word and writing it back gives the same bytes. */
  lemma IntToWordOfWordToInt(x: seq<Byte>)
    requires |x| == 4
    ensures IntToWord(WordToInt(x)) == x
  {
    var t2: nat := x[2] + 256 * (x[3] as int);
    var t1: nat := x[1] + 256 * t2;
    DivMod256(x[0], t1);
    DivMod256(x[1], t2);
    DivMod256(x[2], x[3]);
    assert WordToInt(x) / 0x1_0000 == t1 / 256;
    assert WordToInt(x) / 0x100_0000 == t2 / 256;
  }

  /** Reads a byte string as little-endian words (`bin_to_int`). */
  function BinToInt(x: seq<Byte>): (r: seq<Word>)
    ensures |r| == |x| / 4
  {
    var ws := BinToWords(x);
    seq(|ws|, i requires 0 <= i < |ws| => WordToInt(ws[i]))
  }

  /** Writes words as little-endian bytes (`int_to_bin`). */
  function IntToBin(x: seq<Word>): (r: seq<Byte>)
    ensures |r| == 4 * |x|
  {
    var ws := seq(|x|, i requires 0 <= i < |x| => IntToWord(x[i]));
    WordsToBinLength(ws);
    WordsToBin(ws)
  }

  lemma {:induction false} WordsToBinLength(x: seq<seq<Byte>>)
    requires forall i :: 0 <= i < |x| ==> |x[i]| == 4
    ensures |WordsToBin(x)| == 4 * |x|
  {
    if |x| > 0 {
      WordsToBinLength(x[1..]);
    }
  }

  /** Joining the words of a string of whole words gives the string back. */
  lemma {:induction false} WordsToBinOfBinToWords(x: seq<Byte>)
    requires |x| % 4 == 0
    ensures WordsToBin(BinToWords(x)) == x
    decreases |x|
  {
    if |x| > 0 {
      var ws := BinToWords(x);
      var rest := BinToWords(x[4..]);
      assert |ws[1..]| == |rest|;
      forall i | 0 <= i < |rest|
        ensures ws[1..][i] == rest[i]
      {
        assert x[4..][4 * i .. 4 * i + 4] == x[4 * (i + 1) .. 4 * (i + 1) + 4];
      }
      assert ws[1..] == rest;
      WordsToBinOfBinToWords(x[4..]);
      assert x == x[..4] + x[4..];
    }
  }

  /** Splitting a join of 4-byte words gives the words back. */
  lemma {:induction false} BinToWordsOfWordsToBin(x: seq<seq<Byte>>)
    requires forall i :: 0 <= i < |x| ==> |x[i]| == 4
    ensures BinToWords(WordsToBin(x)) == x
  {
    if |x| > 0 {
      BinToWordsOfWordsToBin(x[1..]);
      WordsToBinLength(x[1..]);
      var j := WordsToBin(x);
      assert j == x[0] + WordsToBin(x[1..]);
      var ws := BinToWords(j);
      assert |ws| == |x|;
      forall i | 0 <= i < |x|
        ensures ws[i] == x[i]
      {
        if i == 0 {
          assert ws[0] == j[..4];
        } else {
          assert ws[i] == j[4 * i .. 4 * i + 4];
          assert j[4 * i .. 4 * i + 4] == WordsToBin(x[1..])[4 * (i - 1) .. 4 * (i - 1) + 4];
          assert BinToWords(WordsToBin(x[1..]))[i - 1] == x[1..][i - 1];
        }
      }
    }
  }

  /** `int_to_bin(bin_to_int(x)) == x` for every byte string of whole words (16 bytes for an IHV). */
  lemma {:induction false} IntToBinOfBinToInt(x: seq<Byte>)
    requires |x| % 4 == 0
    ensures IntToBin(BinToInt(x)) == x
  {
    var ws := BinToWords(x);
    var w := BinToInt(x);
    var back := seq(|w|, i requires 0 <= i < |w| => IntToWord(w[i]));
    forall i | 0 <= i < |w|
      ensures back[i] == ws[i]
    {
      IntToWordOfWordToInt(ws[i]);
    }
    assert back == ws;
    WordsToBinOfBinToWords(x);
  }

  /** `bin_to_int(int_to_bin(w)) == w` for every list of words (4 words for an IHV). */
  lemma {:induction false} BinToIntOfIntToBin(w: seq<Word>)
    ensures BinToInt(IntToBin(w)) == w
  {
    var bs := seq(|w|, i requires 0 <= i < |w| => IntToWord(w[i]));
    BinToWordsOfWordsToBin(bs);
    var r := BinToInt(IntToBin(w));
    assert |r| == |w|;
    forall i | 0 <= i < |w|
      ensures r[i] == w[i]
    {
      assert BinToWords(IntToBin(w))[i] == IntToWord(w[i]);
    }
  }

  /** `mod32bit`: reduction modulo 2^32. */
  function Mod32(x: int): Word
    decreases if x < 0 then 1 else 0, if x < 0 then -x else x
  {
    if x < 0 then Mod32(x + TWO_POW_32)
    else if x < TWO_POW_32 then x
    else Mod32(x - TWO_POW_32)
  }

  /** A number `k` multiples of 2^32 above a word `r` reduces to `r`. */
  lemma {:induction false} Mod32Of(x: int, k: int, r: Word)
    requires x == k * TWO_POW_32 + r
    ensures Mod32(x) == r
    decreases if k < 0 then 1 else 0, if k < 0 then -k else k
  {
    if x < 0 {
      Mod32Of(x + TWO_POW_32, k + 1, r);
    } else if x >= TWO_POW_32 {
      Mod32Of(x - TWO_POW_32, k - 1, r);
    }
  }

  /** `mod32bit` is Python's `x % 2**32`; for a positive divisor Python's `%` is Dafny's. */
  lemma Mod32IsMod(x: int)
    ensures Mod32(x) == x % TWO_POW_32
  {
    Mod32Of(x, x / TWO_POW_32, x % TWO_POW_32);
  }

  /** Taking away part of a sum after reducing it leaves the reduced rest. */
  lemma Mod32SubOfMod(s: int, d: int)
    requires 0 <= s - d < TWO_POW_32
    ensures Mod32(Mod32(s) - d) == s - d
  {
    Mod32IsMod(s);
    Mod32IsMod(Mod32(s) - d);
  }

  /** Subtracting a word from a reduced sum gives back the other term. */
  lemma Mod32SubOfAdd(a: Word, b: Word)
    ensures Mod32(Mod32(a + b) - a) == b
  {
    Mod32SubOfMod(a + b, a);
  }

  // ---------------------------------------------------------------------------
  // Hexadecimal text (binascii.hexlify / unhexlify, as used at md5.py:28, 116, 131)
  // ---------------------------------------------------------------------------

  predicate IsHexDigit(c: char)
  {
    '0' <= c <= '9' || 'a' <= c <= 'f' || 'A' <= c <= 'F'
  }

  /** Every character is a hex digit of either case. */
  predicate IsHexText(s: string)
  {
    forall k :: 0 <= k < |s| ==> IsHexDigit(s[k])
  }

  predicate IsLowerHex(s: string)
  {
    forall k :: 0 <= k < |s| ==> '0' <= s[k] <= '9' || 'a' <= s[k] <= 'f'
  }

  function HexChar(n: nat): (c: char)
    requires n < 16
    ensures IsHexDigit(c)
  {
    if n < 10 then ('0' as int + n) as char else ('a' as int + n - 10) as char
  }

  function HexValue(c: char): (r: nat)
    requires IsHexDigit(c)
    ensures r < 16
  {
    if '0' <= c <= '9' then c as int - '0' as int
    else if 'a' <= c <= 'f' then c as int - 'a' as int + 10
    else c as int - 'A' as int + 10
  }

  lemma HexValueOfHexChar(n: nat)
    requires n < 16
    ensures HexValue(HexChar(n)) == n
  {
  }

  lemma HexCharOfHexValue(c: char)
    requires '0' <= c <= '9' || 'a' <= c <= 'f'
    ensures HexChar(HexValue(c)) == c
  {
  }

  /** Two lower-case hex digits per byte, high nibble first. */
  function Hexlify(b: seq<Byte>): (s: string)
    ensures |s| == 2 * |b|
    ensures IsLowerHex(s)
  {
    if |b| == 0 then [] else [HexChar(b[0] / 16), HexChar(b[0] % 16)] + Hexlify(b[1..])
  }

  /**
    Reads pairs of hex digits (either case) as bytes; `None` where `unhexlify` raises,
    on text of odd length or with a character that is not a hex digit.
    */
  function Unhexlify(s: string): (r: Option<seq<Byte>>)
    ensures r.Some? <==> |s| % 2 == 0 && IsHexText(s)
    ensures r.Some? ==> |r.value| == |s| / 2
  {
    if |s| == 0 then Some([])
    else if |s| == 1 || !IsHexDigit(s[0]) || !IsHexDigit(s[1]) then None
    else
      var rest := Unhexlify(s[2..]);
      assert IsHexText(s) <==> IsHexText(s[2..]) by {
        if IsHexText(s[2..]) {
          assert forall k :: 2 <= k < |s| ==> s[k] == s[2..][k - 2];
        }
      }
      if rest.None? then None else Some([16 * HexValue(s[0]) + HexValue(s[1])] + rest.value)
  }

  /** Two hex digits in front of a valid text add one byte in front of what it decodes to. */
  lemma UnhexlifyStep(c0: char, c1: char, rest: string)
    requires IsHexDigit(c0) && IsHexDigit(c1) && Unhexlify(rest).Some?
    ensures Unhexlify([c0, c1] + rest) == Some([16 * HexValue(c0) + HexValue(c1)] + Unhexlify(rest).value)
  {
    assert ([c0, c1] + rest)[2..] == rest;
  }

  lemma {:induction false} UnhexlifyOfHexlify(b: seq<Byte>)
    ensures Unhexlify(Hexlify(b)) == Some(b)
  {
    if |b| > 0 {
      assert [b[0]] + b[1..] == b;
      HexlifyCons(b[0], b[1..]);
      UnhexlifyOfHexlify(b[1..]);
      UnhexlifyPair(b[0], Hexlify(b[1..]), b[1..]);
    }
  }

  /** The two digits written for a byte, in front of a text that decodes, decode to that byte. */
  lemma UnhexlifyPair(x: Byte, rest: string, tail: seq<Byte>)
    requires Unhexlify(rest) == Some(tail)
    ensures Unhexlify([HexChar(x / 16), HexChar(x % 16)] + rest) == Some([x] + tail)
  {
    HexValueOfHexChar(x / 16);
    HexValueOfHexChar(x % 16);
    UnhexlifyStep(HexChar(x / 16), HexChar(x % 16), rest);
  }

  lemma {:induction false} HexlifyOfUnhexlify(s: string)
    requires |s| % 2 == 0
    requires IsLowerHex(s)
    ensures Unhexlify(s).Some?
    ensures Hexlify(Unhexlify(s).value) == s
  {
    if |s| > 0 {
      LowerHexTail(s);
      HexlifyOfUnhexlify(s[2..]);
      assert s == [s[0], s[1]] + s[2..];
      HexlifyStep(s[0], s[1], s[2..], Unhexlify(s[2..]).value);
    }
  }

  /** One pair of lower-case digits in front of a text that round-trips round-trips too. */
  lemma HexlifyStep(c0: char, c1: char, rest: string, tail: seq<Byte>)
    requires '0' <= c0 <= '9' || 'a' <= c0 <= 'f'
    requires '0' <= c1 <= '9' || 'a' <= c1 <= 'f'
    requires Unhexlify(rest) == Some(tail) && Hexlify(tail) == rest
    ensures Unhexlify([c0, c1] + rest).Some?
    ensures Hexlify(Unhexlify([c0, c1] + rest).value) == [c0, c1] + rest
  {
    var x: Byte := 16 * HexValue(c0) + HexValue(c1);
    UnhexlifyStep(c0, c1, rest);
    HexlifyCons(x, tail);
    HexPair(c0, c1);
  }

  lemma HexlifyCons(x: Byte, tail: seq<Byte>)
    ensures Hexlify([x] + tail) == [HexChar(x / 16), HexChar(x % 16)] + Hexlify(tail)
  {
    assert ([x] + tail)[1..] == tail;
  }

  lemma LowerHexTail(s: string)
    requires |s| >= 2 && IsLowerHex(s)
    ensures IsLowerHex(s[2..])
  {
    assert forall k :: 0 <= k < |s| - 2 ==> s[2..][k] == s[k + 2];
  }

  /** A pair of lower-case hex digits read as a byte is written back as the same pair. */
  lemma HexPair(c0: char, c1: char)
    requires '0' <= c0 <= '9' || 'a' <= c0 <= 'f'
    requires '0' <= c1 <= '9' || 'a' <= c1 <= 'f'
    ensures HexChar((16 * HexValue(c0) + HexValue(c1)) / 16) == c0
    ensures HexChar((16 * HexValue(c0) + HexValue(c1)) % 16) == c1
  {
    Nibbles(HexValue(c0), HexValue(c1));
    HexCharOfHexValue(c0);
    HexCharOfHexValue(c1);
  }

  // ---------------------------------------------------------------------------
  // Constants (md5.py:26-53)
  // ---------------------------------------------------------------------------

  /**
    The initial chaining value, the words A, B, C, D of section 3.3 of RFC 1321. md5.py:27-28
    reads it from the hex text `0123456789abcdeffedcba9876543210` with `bin_to_int(unhexlify(...))`.
    */
  const IHV0: seq<Word> := [0x67452301, 0xefcdab89, 0x98badcfe, 0x10325476]

  /**
    The bytes of `IHV0`, little-endian word by word: what `unhexlify` makes of the hex
    text `0123456789abcdeffedcba9876543210` of md5.py:27.
    */
  const IHV0_BYTES: seq<Byte> := [0x01, 0x23, 0x45, 0x67, 0x89, 0xab, 0xcd, 0xef, 0xfe, 0xdc, 0xba, 0x98, 0x76, 0x54, 0x32, 0x10]

  /** `IHV0` is what md5.py:28 reads from those bytes, and `ihv` of a fresh hasher gives them back. */
  lemma {:induction false} Ihv0OfBytes()
    ensures IntToBin(IHV0) == IHV0_BYTES
    ensures BinToInt(IHV0_BYTES) == IHV0
  {
    var ws := seq(4, i requires 0 <= i < 4 => IntToWord(IHV0[i]));
    assert IntToWord(0x67452301) == [0x01, 0x23, 0x45, 0x67];
    assert IntToWord(0xefcdab89) == [0x89, 0xab, 0xcd, 0xef];
    assert IntToWord(0x98badcfe) == [0xfe, 0xdc, 0xba, 0x98];
    assert IntToWord(0x10325476) == [0x76, 0x54, 0x32, 0x10];
    assert WordsToBin(ws[3..]) == ws[3] + WordsToBin(ws[4..]);
    assert WordsToBin(ws[2..]) == ws[2] + WordsToBin(ws[3..]);
    assert WordsToBin(ws[1..]) == ws[1] + WordsToBin(ws[2..]);
    BinToIntOfIntToBin(IHV0);
  }

  /** The hex text md5.py:27 decodes into the initial chaining value. */
  const IHV0_HEX: string := "0123456789abcdeffedcba9876543210"

  lemma {:induction false} HexlifyConcat(a: seq<Byte>, c: seq<Byte>)
    ensures Hexlify(a + c) == Hexlify(a) + Hexlify(c)
  {
    if |a| == 0 {
      assert a + c == c;
    } else {
      assert (a + c)[1..] == a[1..] + c;
      HexlifyConcat(a[1..], c);
    }
  }

  /** The hex text of a 4-byte string whose bytes have the nibbles `d0 d1`, ..., `d6 d7`. */
  lemma {:induction false} HexlifyWord(x: seq<Byte>, d0: nat, d1: nat, d2: nat, d3: nat, d4: nat, d5: nat, d6: nat, d7: nat)
    requires d0 < 16 && d1 < 16 && d2 < 16 && d3 < 16 && d4 < 16 && d5 < 16 && d6 < 16 && d7 < 16
    requires x == [16 * d0 + d1, 16 * d2 + d3, 16 * d4 + d5, 16 * d6 + d7]
    ensures Hexlify(x) == [HexChar(d0), HexChar(d1), HexChar(d2), HexChar(d3), HexChar(d4), HexChar(d5), HexChar(d6), HexChar(d7)]
  {
    Nibbles(d0, d1);
    Nibbles(d2, d3);
    Nibbles(d4, d5);
    Nibbles(d6, d7);
    assert Hexlify(x[3..]) == [HexChar(d6), HexChar(d7)] + Hexlify(x[4..]);
    assert Hexlify(x[2..]) == [HexChar(d4), HexChar(d5)] + Hexlify(x[3..]);
    assert Hexlify(x[1..]) == [HexChar(d2), HexChar(d3)] + Hexlify(x[2..]);
  }

  lemma Nibbles(hi: nat, lo: nat)
    requires lo < 16
    ensures (16 * hi + lo) / 16 == hi && (16 * hi + lo) % 16 == lo
  {
  }

  /** The sixteen hex digits. */
  lemma HexDigits()
    ensures HexChar(0) == '0' && HexChar(1) == '1' && HexChar(2) == '2' && HexChar(3) == '3'
    ensures HexChar(4) == '4' && HexChar(5) == '5' && HexChar(6) == '6' && HexChar(7) == '7'
    ensures HexChar(8) == '8' && HexChar(9) == '9' && HexChar(10) == 'a' && HexChar(11) == 'b'
    ensures HexChar(12) == 'c' && HexChar(13) == 'd' && HexChar(14) == 'e' && HexChar(15) == 'f'
  {
  }

  /** The hex text of each word of `IHV0`, one lemma per word. */
  lemma Ihv0Word0Hex()
    ensures Hexlify([0x01, 0x23, 0x45, 0x67]) == "01234567"
  {
    HexDigits();
    HexlifyWord([0x01, 0x23, 0x45, 0x67], 0, 1, 2, 3, 4, 5, 6, 7);
  }

  lemma Ihv0Word1Hex()
    ensures Hexlify([0x89, 0xab, 0xcd, 0xef]) == "89abcdef"
  {
    HexDigits();
    HexlifyWord([0x89, 0xab, 0xcd, 0xef], 8, 9, 10, 11, 12, 13, 14, 15);
  }

  lemma Ihv0Word2Hex()
    ensures Hexlify([0xfe, 0xdc, 0xba, 0x98]) == "fedcba98"
  {
    HexDigits();
    HexlifyWord([0xfe, 0xdc, 0xba, 0x98], 15, 14, 13, 12, 11, 10, 9, 8);
  }

  lemma Ihv0Word3Hex()
    ensures Hexlify([0x76, 0x54, 0x32, 0x10]) == "76543210"
  {
    HexDigits();
    HexlifyWord([0x76, 0x54, 0x32, 0x10], 7, 6, 5, 4, 3, 2, 1, 0);
  }

  /** The bytes of `IHV0` are what `unhexlify` makes of its hex text, and `hexlify` gives it back. */
  lemma Ihv0Hex()
    ensures Hexlify(IHV0_BYTES) == IHV0_HEX
    ensures Unhexlify(IHV0_HEX) == Some(IHV0_BYTES)
  {
    var w0: seq<Byte>, w1: seq<Byte>, w2: seq<Byte>, w3: seq<Byte> :=
      [0x01, 0x23, 0x45, 0x67], [0x89, 0xab, 0xcd, 0xef], [0xfe, 0xdc, 0xba, 0x98], [0x76, 0x54, 0x32, 0x10];
    assert IHV0_BYTES == w0 + w1 + w2 + w3;
    assert IHV0_HEX == "01234567" + "89abcdef" + "fedcba98" + "76543210";
    HexlifyConcat(w0 + w1 + w2, w3);
    HexlifyConcat(w0 + w1, w2);
    HexlifyConcat(w0, w1);
    Ihv0Word0Hex();
    Ihv0Word1Hex();
    Ihv0Word2Hex();
    Ihv0Word3Hex();
    UnhexlifyOfHexlify(IHV0_BYTES);
  }

  const BLOCK_SIZE: nat := 64
  const ROUNDS: nat := BLOCK_SIZE

  /** Table T of section 3.4 of RFC 1321: the integer part of 2^32 * |sin(t + 1)|. */
  const AC: seq<Word> := [
    0xd76aa478, 0xe8c7b756, 0x242070db, 0xc1bdceee,
    0xf57c0faf, 0x4787c62a, 0xa8304613, 0xfd469501,
    0x698098d8, 0x8b44f7af, 0xffff5bb1, 0x895cd7be,
    0x6b901122, 0xfd987193, 0xa679438e, 0x49b40821,
    0xf61e2562, 0xc040b340, 0x265e5a51, 0xe9b6c7aa,
    0xd62f105d, 0x02441453, 0xd8a1e681, 0xe7d3fbc8,
    0x21e1cde6, 0xc33707d6, 0xf4d50d87, 0x455a14ed,
    0xa9e3e905, 0xfcefa3f8, 0x676f02d9, 0x8d2a4c8a,
    0xfffa3942, 0x8771f681, 0x6d9d6122, 0xfde5380c,
    0xa4beea44, 0x4bdecfa9, 0xf6bb4b60, 0xbebfbc70,
    0x289b7ec6, 0xeaa127fa, 0xd4ef3085, 0x04881d05,
    0xd9d4d039, 0xe6db99e5, 0x1fa27cf8, 0xc4ac5665,
    0xf4292244, 0x432aff97, 0xab9423a7, 0xfc93a039,
    0x655b59c3, 0x8f0ccc92, 0xffeff47d, 0x85845dd1,
    0x6fa87e4f, 0xfe2ce6e0, 0xa3014314, 0x4e0811a1,
    0xf7537e82, 0xbd3af235, 0x2ad7d2bb, 0xeb86d391
  ]

  /** Four copies of `s` one after another: Python's `s * 4`. */
  function Repeat4(s: seq<nat>): (r: seq<nat>)
    ensures |r| == 4 * |s|
  {
    s + s + s + s
  }

  /** Entry `j` of four copies of a four-entry `s` is entry `j % 4` of `s`. */
  lemma Repeat4At(s: seq<nat>, j: nat)
    requires |s| == 4 && j < 16
    ensures Repeat4(s)[j] == s[j % 4]
  {
    var r := Repeat4(s);
    assert r == ((s + s) + s) + s;
    if j < 4 {
      assert r[j] == s[j];
    } else if j < 8 {
      assert r[j] == s[j - 4];
    } else if j < 12 {
      assert r[j] == s[j - 8];
    } else {
      assert r[j] == s[j - 12];
    }
  }

  /** The rotation amount of each round: four amounts per group of 16 rounds, each used four times. */
  const RC: seq<nat> := Repeat4([7, 12, 17, 22]) + Repeat4([5, 9, 14, 20]) + Repeat4([4, 11, 16, 23]) + Repeat4([6, 10, 15, 21])

  /**
    Round `i` rotates by the `i % 4`-th amount of its group of 16 rounds, and every amount is
    strictly between 0 and 32, where `RotLeftIsShift` applies.
    */
  lemma RcOfRound(i: nat)
    requires i < ROUNDS
    ensures |RC| == ROUNDS
    ensures RC[i] == [[7, 12, 17, 22], [5, 9, 14, 20], [4, 11, 16, 23], [6, 10, 15, 21]][i / 16][i % 4]
    ensures 0 < RC[i] < 32
  {
    GroupsAt([7, 12, 17, 22], [5, 9, 14, 20], [4, 11, 16, 23], [6, 10, 15, 21], i);
  }

  /** Entry `i` of four groups, each of four entries repeated four times. */
  lemma GroupsAt(s0: seq<nat>, s1: seq<nat>, s2: seq<nat>, s3: seq<nat>, i: nat)
    requires |s0| == |s1| == |s2| == |s3| == 4 && i < 64
    ensures |Repeat4(s0) + Repeat4(s1) + Repeat4(s2) + Repeat4(s3)| == 64
    ensures (Repeat4(s0) + Repeat4(s1) + Repeat4(s2) + Repeat4(s3))[i] == [s0, s1, s2, s3][i / 16][i % 4]
  {
    var j := i % 16;
    assert j % 4 == i % 4;
    var r := Repeat4(s0) + Repeat4(s1) + Repeat4(s2) + Repeat4(s3);
    if i < 16 {
      assert r[i] == Repeat4(s0)[j];
      Repeat4At(s0, j);
    } else if i < 32 {
      assert r[i] == Repeat4(s1)[j];
      Repeat4At(s1, j);
    } else if i < 48 {
      assert r[i] == Repeat4(s2)[j];
      Repeat4At(s2, j);
    } else {
      assert r[i] == Repeat4(s3)[j];
      Repeat4At(s3, j);
    }
  }

  /** The bitwise connectives Python applies to its integer words. */
  datatype BitOp = And | Or | Xor

  function ApplyBit(op: BitOp, a: nat, b: nat): (r: nat)
    requires a < 2 && b < 2
    ensures r < 2
  {
    match op
    case And => if a == 1 && b == 1 then 1 else 0
    case Or => if a + b > 0 then 1 else 0
    case Xor => (a + b) % 2
  }

  /** `op` applied bit by bit to the `n` low-order bits of `x` and `y`. */
  function Bitwise(op: BitOp, x: nat, y: nat, n: nat): nat
  {
    if n == 0 then 0 else ApplyBit(op, x % 2, y % 2) + 2 * Bitwise(op, x / 2, y / 2, n - 1)
  }

  function And32(x: nat, y: nat): nat { Bitwise(And, x, y, 32) }
  function Or32(x: nat, y: nat): nat { Bitwise(Or, x, y, 32) }
  function Xor32(x: nat, y: nat): nat { Bitwise(Xor, x, y, 32) }

  /** The low 32 bits of Python's `~x`, which is `-x - 1`. */
  function Not32(x: Word): (r: Word)
    ensures Mod32(-(x as int) - 1) == r
  {
    TWO_POW_32 - 1 - x
  }

  function Pow2(n: nat): (r: nat)
    ensures r >= 1
  {
    if n == 0 then 1 else 2 * Pow2(n - 1)
  }

  /** Python's `x << n` and `x >> n` on a non-negative `x`. */
  function ShiftLeft(x: nat, n: nat): nat { x * Pow2(n) }
  function ShiftRight(x: nat, n: nat): nat { DivNat(x, Pow2(n)); x / Pow2(n) }

  lemma DivNat(x: nat, p: nat)
    requires p >= 1
    ensures x / p >= 0
  {
  }

  lemma Pow2Of32()
    ensures Pow2(31) == 0x8000_0000 && Pow2(32) == TWO_POW_32
  {
    assert Pow2(8) == 256 && Pow2(7) == 128;
    Pow2Add(8, 8);
    Pow2Add(8, 7);
    Pow2Add(16, 15);
  }

  lemma {:induction false} Pow2Add(a: nat, b: nat)
    ensures Pow2(a + b) == Pow2(a) * Pow2(b)
    decreases a
  {
    if a > 0 {
      Pow2Add(a - 1, b);
    }
  }

  type Bit = x: int | 0 <= x < 2

  /** Bit `k` of `i`, counting from the least significant. */
  function BitOf(i: nat, k: nat): Bit
  {
    if k == 0 then i % 2 else BitOf(i / 2, k - 1)
  }

  /** Bit `k` of an `n`-bit bitwise operation is the operation on bit `k` of each operand, and 0 above. */
  lemma {:induction false} BitwiseBit(op: BitOp, x: nat, y: nat, n: nat, k: nat)
    ensures k < n ==> BitOf(Bitwise(op, x, y, n), k) == ApplyBit(op, BitOf(x, k), BitOf(y, k))
    ensures k >= n ==> BitOf(Bitwise(op, x, y, n), k) == 0
    decreases k
  {
    if n == 0 {
      BitOfZero(k);
    } else {
      HalfOf(ApplyBit(op, x % 2, y % 2), Bitwise(op, x / 2, y / 2, n - 1));
      if k > 0 {
        BitwiseBit(op, x / 2, y / 2, n - 1, k - 1);
      }
    }
  }

  /** The low bit and the rest of `a + 2 * rest`. */
  lemma HalfOf(a: nat, rest: nat)
    requires a < 2
    ensures (a + 2 * rest) % 2 == a && (a + 2 * rest) / 2 == rest
  {
  }

  lemma {:induction false} BitOfZero(k: nat)
    ensures BitOf(0, k) == 0
  {
    if k > 0 {
      BitOfZero(k - 1);
    }
  }

  /** Below `n` bits, `2^n - 1 - x` flips every bit of `x`. */
  lemma {:induction false} ComplementBit(x: nat, n: nat, k: nat)
    requires x < Pow2(n) && k < n
    ensures BitOf(Pow2(n) - 1 - x, k) == 1 - BitOf(x, k)
    decreases k
  {
    var c := Pow2(n - 1);
    assert Pow2(n) == 2 * c;
    if x % 2 == 0 {
      assert Pow2(n) - 1 - x == 2 * (c - 1 - x / 2) + 1;
    } else {
      assert Pow2(n) - 1 - x == 2 * (c - 1 - x / 2);
    }
    if k > 0 {
      ComplementBit(x / 2, n - 1, k - 1);
    }
  }

  /** `Not32` flips each of the 32 bits. */
  lemma Not32Bit(x: Word, k: nat)
    requires k < 32
    ensures BitOf(Not32(x), k) == 1 - BitOf(x, k)
  {
    Pow2Of32();
    ComplementBit(x, 32, k);
  }

  /** The four non-linear functions of section 3.4 of RFC 1321, on the low 32 bits. */
  function F(x: Word, y: Word, z: Word): nat { Xor32(And32(x, y), And32(Not32(x), z)) }
  function G(x: Word, y: Word, z: Word): nat { Xor32(And32(z, x), And32(Not32(z), y)) }
  function H(x: Word, y: Word, z: Word): nat { Xor32(Xor32(x, y), z) }
  function I(x: Word, y: Word, z: Word): nat { Xor32(y, Or32(x, Not32(z))) }

  /** Section 3.4 of RFC 1321: in each bit position F acts as a conditional, if X then Y else Z. */
  lemma FBits(x: Word, y: Word, z: Word, k: nat)
    ensures k < 32 ==> BitOf(F(x, y, z), k) == if BitOf(x, k) == 1 then BitOf(y, k) else BitOf(z, k)
    ensures k >= 32 ==> BitOf(F(x, y, z), k) == 0
  {
    BitwiseBit(Xor, And32(x, y), And32(Not32(x), z), 32, k);
    if k < 32 {
      BitwiseBit(And, x, y, 32, k);
      BitwiseBit(And, Not32(x), z, 32, k);
      Not32Bit(x, k);
    }
  }

  /** G is the conditional the other way round: if Z then X else Y. */
  lemma GBits(x: Word, y: Word, z: Word, k: nat)
    ensures k < 32 ==> BitOf(G(x, y, z), k) == if BitOf(z, k) == 1 then BitOf(x, k) else BitOf(y, k)
    ensures k >= 32 ==> BitOf(G(x, y, z), k) == 0
  {
    BitwiseBit(Xor, And32(z, x), And32(Not32(z), y), 32, k);
    if k < 32 {
      BitwiseBit(And, z, x, 32, k);
      BitwiseBit(And, Not32(z), y, 32, k);
      Not32Bit(z, k);
    }
  }

  /** H is the parity of the three bits. */
  lemma HBits(x: Word, y: Word, z: Word, k: nat)
    ensures k < 32 ==> BitOf(H(x, y, z), k) == (BitOf(x, k) + BitOf(y, k) + BitOf(z, k)) % 2
    ensures k >= 32 ==> BitOf(H(x, y, z), k) == 0
  {
    BitwiseBit(Xor, Xor32(x, y), z, 32, k);
    if k < 32 {
      BitwiseBit(Xor, x, y, 32, k);
    }
  }

  /** I is Y exclusive-or (X or not Z). */
  lemma IBits(x: Word, y: Word, z: Word, k: nat)
    ensures k < 32 ==> BitOf(I(x, y, z), k) == (BitOf(y, k) + (if BitOf(x, k) == 1 || BitOf(z, k) == 0 then 1 else 0)) % 2
    ensures k >= 32 ==> BitOf(I(x, y, z), k) == 0
  {
    BitwiseBit(Xor, y, Or32(x, Not32(z)), 32, k);
    if k < 32 {
      BitwiseBit(Or, x, Not32(z), 32, k);
      Not32Bit(z, k);
    }
  }

  /** Which of the four non-linear functions a round applies. */
  datatype RoundFunction = UseF | UseG | UseH | UseI

  /** Applies the chosen non-linear function. */
  function Apply(f: RoundFunction, x: Word, y: Word, z: Word): nat
  {
    match f
    case UseF => F(x, y, z)
    case UseG => G(x, y, z)
    case UseH => H(x, y, z)
    case UseI => I(x, y, z)
  }

  /** The non-linear function of round `i`: F, G, H, I for the four groups of 16 rounds. */
  function Fx(i: nat): RoundFunction
    requires i < ROUNDS
  {
    if i < 16 then UseF else if i < 32 then UseG else if i < 48 then UseH else UseI
  }

  /**
    The 64 rounds fall into four groups of 16: group `g` applies the `g`-th of F, G, H, I
    and the `g`-th of the selections M1-M4, and every round's shift is one `rotleft` handles.
    */
  lemma RoundGroups(i: nat, t: nat)
    requires i < ROUNDS
    ensures Fx(i) == [UseF, UseG, UseH, UseI][i / 16]
    ensures Mx(i, t) == [M1(t), M2(t), M3(t), M4(t)][i / 16]
    ensures 0 < Consts(i).rc < 32 && Consts(i).wx == Mx(i, i)
  {
    RcOfRound(i);
  }

  /** The message-word selections of the four groups of rounds. */
  function M1(t: nat): nat { t }
  function M2(t: nat): nat { (1 + 5 * t) % 16 }
  function M3(t: nat): nat { (5 + 3 * t) % 16 }
  function M4(t: nat): nat { (7 * t) % 16 }

  function Mx(i: nat, t: nat): nat
    requires i < ROUNDS
  {
    if i < 16 then M1(t) else if i < 32 then M2(t) else if i < 48 then M3(t) else M4(t)
  }

  /** The message word read by round `i`: selection `Mx[i]` applied to `i` itself. */
  function Wx(i: nat): (r: nat)
    requires i < ROUNDS
    ensures r < 16
    ensures i < 16 ==> r == i
  {
    Mx(i, i)
  }

  /** A number that is `m` more than a multiple of 16, for `m < 16`, leaves remainder `m`. */
  lemma Mod16Of(x: int, j: int, m: nat)
    requires m < 16 && x == m + 16 * j
    ensures x % 16 == m
  {
  }

  /**
    The round of group `g` (16 rounds each) that reads message word `m`: every group
    reads each of the 16 message words, and so each exactly once.
    */
  function WxRoundOf(g: nat, m: nat): (k: nat)
    requires g < 4 && m < 16
    ensures k < 16 && Wx(16 * g + k) == m
  {
    if g == 0 then m
    else if g == 1 then
      var k := (13 * (m + 15)) % 16;
      Mod16Of(1 + 5 * (16 + k), 66 + 4 * m - 5 * ((13 * (m + 15)) / 16), m);
      k
    else if g == 2 then
      var k := (11 * (m + 11)) % 16;
      Mod16Of(5 + 3 * (32 + k), 29 + 2 * m - 3 * ((11 * (m + 11)) / 16), m);
      k
    else
      var k := (7 * m) % 16;
      Mod16Of(7 * (48 + k), 21 + 3 * m - 7 * ((7 * m) / 16), m);
      k
  }

  // ---------------------------------------------------------------------------
  // Rounds and compression (md5.py:24, 56-61)
  // ---------------------------------------------------------------------------

  /** Rotation left by one bit on 32 bits: the top bit comes back in at the bottom. */
  function RotLeft1(x: Word): Word
  {
    if x < 0x8000_0000 then 2 * x else 2 * x - TWO_POW_32 + 1
  }

  /** Rotation right by one bit on 32 bits: the bottom bit comes back in at the top. */
  function RotRight1(x: Word): Word
  {
    if x % 2 == 0 then x / 2 else x / 2 + 0x8000_0000
  }

  lemma RotRight1OfRotLeft1(x: Word)
    ensures RotRight1(RotLeft1(x)) == x
  {
  }

  /**
    Python's `rotleft(x, n)`, `(x << n) | (x >> (32 - n))`, reduced modulo 2^32 as every
    caller does: rotation of the 32-bit word left by `n` bits, here one bit at a time.
    */
  function RotLeft(x: Word, n: nat): Word
  {
    if n == 0 then x else RotLeft1(RotLeft(x, n - 1))
  }

  /** Rotation right by `n` bits, one bit at a time. */
  function RotRight(x: Word, n: nat): Word
  {
    if n == 0 then x else RotRight1(RotRight(x, n - 1))
  }

  /** The first of the `n` one-bit steps of a left rotation may be taken first. */
  lemma {:induction false} RotLeftFirstStep(x: Word, n: nat)
    requires n > 0
    ensures RotLeft(x, n) == RotLeft(RotLeft1(x), n - 1)
  {
    if n > 1 {
      RotLeftFirstStep(x, n - 1);
    }
  }

  /** Rotating left by `n` and then right by `n` gives the word back. */
  lemma {:induction false} RotRightOfRotLeft(x: Word, n: nat)
    ensures RotRight(RotLeft(x, n), n) == x
    decreases n
  {
    if n > 0 {
      RotLeftFirstStep(x, n);
      RotRightOfRotLeft(RotLeft1(x), n - 1);
      RotRight1OfRotLeft1(x);
    }
  }

  /**
    Rotating left by `n` swaps the top `n` bits `hi` with the low `32 - n` bits `lo`:
    by induction, each one-bit step moves the top bit of `hi` down to the bottom.
    */
  lemma {:induction false} RotLeftSplit(x: Word, hi: nat, lo: nat, n: nat)
    requires n <= 32 && hi < Pow2(n) && lo < Pow2(32 - n) && x == hi * Pow2(32 - n) + lo
    ensures RotLeft(x, n) == lo * Pow2(n) + hi
    decreases n
  {
    if n > 0 {
      var p, r := Pow2(32 - n), Pow2(n - 1);
      Pow2Add(32 - n, n - 1);
      Pow2Of32();
      RotStepArith(hi, lo, p, r);
      var hi', lo' := hi / 2, (hi % 2) * p + lo;
      RotLeftSplit(x, hi', lo', n - 1);
      var y := lo' * r + hi';
      assert RotLeft(x, n) == RotLeft1(y);
      assert Pow2(n) == 2 * r;
    }
  }

  /** The arithmetic of one step of `RotLeftSplit`, with `p = 2^(32-n)` and `r = 2^(n-1)`. */
  lemma RotStepArith(hi: nat, lo: nat, p: nat, r: nat)
    requires p >= 1 && r >= 1 && p * r == 0x8000_0000 && hi < 2 * r && lo < p
    ensures hi * p + lo == (hi / 2) * (2 * p) + ((hi % 2) * p + lo)
    ensures (hi % 2) * p + lo < 2 * p && hi / 2 < r
    ensures var y := ((hi % 2) * p + lo) * r + hi / 2; y < TWO_POW_32 && RotLeft1(y) == lo * (2 * r) + hi
  {
    var h := hi / 2;
    assert hi == 2 * h + hi % 2;
    assert hi * p == h * (2 * p) + (hi % 2) * p;
    assert ((hi % 2) * p + lo) * r == (hi % 2) * (p * r) + lo * r;
    assert lo * r <= (p - 1) * r == p * r - r;
    var y := ((hi % 2) * p + lo) * r + hi / 2;
    assert y == (hi % 2) * 0x8000_0000 + (lo * r + h);
    assert 2 * (lo * r + h) + hi % 2 == lo * (2 * r) + hi;
  }

  /**
    Python's `rotleft(x, n)` for the shifts `0 < n < 32` that the rounds use, reduced
    modulo 2^32 as every caller does: `(x << n) % 2^32 + (x >> (32 - n))`.
    */
  lemma RotLeftIsShift(x: Word, n: nat)
    requires 0 < n < 32
    ensures RotLeft(x, n) == (x * Pow2(n)) % TWO_POW_32 + x / Pow2(32 - n)
  {
    RotLeftHiLo(x, n);
    ShiftLow(x, n);
  }

  /** Rotating left by `n` puts the low `32 - n` bits on top of the top `n` bits. */
  lemma RotLeftHiLo(x: Word, n: nat)
    requires 0 < n < 32
    ensures RotLeft(x, n) == (x % Pow2(32 - n)) * Pow2(n) + x / Pow2(32 - n)
  {
    ShiftSplit(x, n);
    RotLeftSplit(x, x / Pow2(32 - n), x % Pow2(32 - n), n);
  }

  /**
    The same with the source's bitwise or of the two shifts, `((x << n) | (x >> (32 - n))) % 2^32`:
    the shifts do not overlap, and both fit in 64 bits.
    */
  lemma RotLeftIsShiftOr(x: Word, n: nat)
    requires 0 < n < 32
    ensures Bitwise(Or, ShiftLeft(x, n), ShiftRight(x, 32 - n), 64) % TWO_POW_32 == RotLeft(x, n)
  {
    ShiftOrIsSum(x, n);
    ShiftSumLow(x, n);
    RotLeftHiLo(x, n);
  }

  /** The top `n` bits and the low `32 - n` bits of a word. */
  lemma ShiftSplit(x: Word, n: nat)
    requires 0 < n < 32
    ensures 0 <= x / Pow2(32 - n) < Pow2(n) && 0 <= x % Pow2(32 - n) < Pow2(32 - n)
    ensures x == (x / Pow2(32 - n)) * Pow2(32 - n) + x % Pow2(32 - n)
  {
    ShiftPowers(n);
    ShiftArith(x, Pow2(32 - n), Pow2(n));
  }

  /** The reduced left shift keeps the low `32 - n` bits, moved up. */
  lemma ShiftLow(x: Word, n: nat)
    requires 0 < n < 32
    ensures (x * Pow2(n)) % TWO_POW_32 == (x % Pow2(32 - n)) * Pow2(n)
  {
    ShiftPowers(n);
    ShiftModArith(x, Pow2(32 - n), Pow2(n));
  }

  /** The reduced sum of the two shifts of `rotleft`. */
  lemma ShiftSumLow(x: Word, n: nat)
    requires 0 < n < 32
    ensures (x * Pow2(n) + x / Pow2(32 - n)) % TWO_POW_32 == (x % Pow2(32 - n)) * Pow2(n) + x / Pow2(32 - n)
  {
    ShiftPowers(n);
    ShiftModArith(x, Pow2(32 - n), Pow2(n));
  }

  lemma ModOfSum(a: int, k: int, r: int)
    requires a == k * TWO_POW_32 + r && 0 <= r < TWO_POW_32
    ensures a % TWO_POW_32 == r
  {
  }

  /** The or of the two shifts of `rotleft` is their sum. */
  lemma ShiftOrIsSum(x: Word, n: nat)
    requires 0 < n < 32
    ensures Bitwise(Or, ShiftLeft(x, n), ShiftRight(x, 32 - n), 64) == x * Pow2(n) + x / Pow2(32 - n)
  {
    var p, q := Pow2(32 - n), Pow2(n);
    ShiftPowers(n);
    ShiftBound(x, p, q);
    OrDisjoint(x, x / p, n, 64);
  }

  lemma ShiftPowers(n: nat)
    requires 0 < n < 32
    ensures Pow2(32 - n) * Pow2(n) == TWO_POW_32 && Pow2(n) <= 0x8000_0000
    ensures Pow2(64) == TWO_POW_32 * TWO_POW_32
  {
    Pow2Add(32 - n, n);
    Pow2Mono(n, 31);
    Pow2Add(32, 32);
    Pow2Of32();
  }

  /** The arithmetic of `ShiftOrIsSum`, with `p = 2^(32-n)` and `q = 2^n`. */
  lemma ShiftArith(x: Word, p: nat, q: nat)
    requires p >= 1 && q >= 1 && p * q == TWO_POW_32 && q <= 0x8000_0000
    ensures x == (x / p) * p + x % p && 0 <= x / p < q && 0 <= x % p < p
    ensures x * q == (x / p) * TWO_POW_32 + (x % p) * q
    ensures (x % p) * q + x / p < TWO_POW_32
    ensures x * q + x / p < TWO_POW_32 * TWO_POW_32
  {
    var hi, lo := x / p, x % p;
    assert hi * p < q * p;
    MulLtCancel(hi, q, p);
    assert x * q == hi * (p * q) + lo * q;
    assert lo * q <= (p - 1) * q == p * q - q;
    assert x * q < TWO_POW_32 * q <= TWO_POW_32 * 0x8000_0000;
  }

  /** The reductions `ShiftLow` and `ShiftSumLow` need, from the same `p` and `q` as `ShiftArith`. */
  lemma ShiftModArith(x: Word, p: nat, q: nat)
    requires p >= 1 && q >= 1 && p * q == TWO_POW_32 && q <= 0x8000_0000
    ensures (x * q) % TWO_POW_32 == (x % p) * q
    ensures (x * q + x / p) % TWO_POW_32 == (x % p) * q + x / p
  {
    ShiftArith(x, p, q);
    ModOfSum(x * q, x / p, (x % p) * q);
    ModOfSum(x * q + x / p, x / p, (x % p) * q + x / p);
  }

  lemma MulLtCancel(a: nat, b: nat, c: nat)
    requires a * c < b * c
    ensures a < b
  {
    if a >= b {
      MulLe(b, a, c);
    }
  }

  lemma MulLe(a: nat, b: nat, c: nat)
    requires a <= b
    ensures a * c <= b * c
  {
  }

  /** The bounds `ShiftOrIsSum` needs, from the same `p` and `q` as `ShiftArith`. */
  lemma ShiftBound(x: Word, p: nat, q: nat)
    requires p >= 1 && q >= 1 && p * q == TWO_POW_32 && q <= 0x8000_0000
    ensures 0 <= x / p < q && x * q + x / p < TWO_POW_32 * TWO_POW_32
  {
    ShiftArith(x, p, q);
  }

  lemma {:induction false} Pow2Mono(a: nat, b: nat)
    requires a <= b
    ensures Pow2(a) <= Pow2(b)
    decreases b
  {
    if a < b {
      Pow2Mono(a, b - 1);
    }
  }

  /** An or of `c` shifted left by `k` with a number below 2^k is their sum. */
  lemma {:induction false} OrDisjoint(c: nat, b: nat, k: nat, m: nat)
    requires b < Pow2(k)
    requires k <= m
    requires c * Pow2(k) + b < Pow2(m)
    ensures Bitwise(Or, c * Pow2(k), b, m) == c * Pow2(k) + b
    decreases k
  {
    if k == 0 {
      OrZero(c, m);
    } else {
      var a := c * Pow2(k - 1);
      assert c * Pow2(k) == 2 * a;
      HalfOf(0, a);
      HalfOf(b % 2, b / 2);
      OrDisjoint(c, b / 2, k - 1, m - 1);
      assert Bitwise(Or, 2 * a, b, m) == ApplyBit(Or, 0, b % 2) + 2 * Bitwise(Or, a, b / 2, m - 1);
    }
  }

  /** An or with zero below `m` bits leaves a number below 2^m unchanged. */
  lemma {:induction false} OrZero(a: nat, m: nat)
    requires a < Pow2(m)
    ensures Bitwise(Or, a, 0, m) == a
  {
    if m > 0 {
      OrZero(a / 2, m - 1);
    }
  }

  /** The index of one of the 16 message words of a block. */
  type MsgIndex = x: int | 0 <= x < 16

  /** Everything that differs from one round to the next: `Fx[i]`, `AC[i]`, `RC[i]` and `Wx[i]`. */
  datatype RoundConsts = RoundConsts(fx: RoundFunction, ac: Word, rc: nat, wx: MsgIndex)

  function Consts(i: nat): (c: RoundConsts)
    requires i < ROUNDS
  {
    RoundConsts(Fx(i), AC[i], RC[i], Wx(i))
  }

  /** The constants of rounds 0, 1, ..., 63, in order. */
  function RoundTable(): seq<RoundConsts>
  {
    seq(ROUNDS, i requires 0 <= i < ROUNDS => Consts(i))
  }

  /** The new first state word after a round with constants `c` over state `q = [b, c, d, a]` and message words `w`. */
  function RoundQNext(w: seq<Word>, q: seq<Word>, c: RoundConsts): Word
    requires |w| == 16 && |q| == 4
  {
    Mod32(q[0] + RotLeft(Mod32((Apply(c.fx, q[0], q[1], q[2]) as int) + q[3] + c.ac + w[c.wx]), c.rc))
  }

  /** One round: the new word goes to the front and the oldest word drops out. */
  function Round(w: seq<Word>, q: seq<Word>, c: RoundConsts): (r: seq<Word>)
    requires |w| == 16 && |q| == 4
    ensures |r| == 4
  {
    [RoundQNext(w, q, c)] + q[..3]
  }

  /**
    The rounds with constants `cs` applied in order to state `q`: the last round of `cs`
    applied to the result of the others. The source's `DoRounds(w, q, i)` applies round
    `i` and recurses from round `i + 1`; `DoRounds(w, q, RoundTable())` is its
    `DoRounds(w, q, 0)`, rounds 0, 1, ..., 63 in turn.
    */
  function DoRounds(w: seq<Word>, q: seq<Word>, cs: seq<RoundConsts>): (r: seq<Word>)
    requires |w| == 16 && |q| == 4
    ensures |r| == 4
    decreases |cs|
  {
    if |cs| == 0 then q else Round(w, DoRounds(w, q, cs[..|cs| - 1]), cs[|cs| - 1])
  }

  /**
    The source's recursion: the rounds of `cs` are its first round followed by the rest,
    which is `DoRounds(w, q, i)` stepping to `DoRounds(w, [RoundQNext(w, q, i)] + q[:3], i + 1)`.
    */
  lemma {:induction false} DoRoundsFront(w: seq<Word>, q: seq<Word>, cs: seq<RoundConsts>)
    requires |w| == 16 && |q| == 4 && |cs| > 0
    ensures DoRounds(w, q, cs) == DoRounds(w, Round(w, q, cs[0]), cs[1..])
    decreases |cs|
  {
    var n := |cs|;
    if n == 1 {
      assert cs[..0] == [] && cs[1..] == [];
    } else {
      var front := cs[..n - 1];
      DoRoundsFront(w, q, front);
      assert front[0] == cs[0];
      assert front[1..] == cs[1..][..n - 2];
      assert cs[1..][n - 2] == cs[n - 1];
    }
  }

  /** A round run backwards: the word that dropped out is recovered from the new one. */
  function RoundPrev(w: seq<Word>, q: seq<Word>, c: RoundConsts): (r: seq<Word>)
    requires |w| == 16 && |q| == 4
    ensures |r| == 4
  {
    var a := Mod32((RotRight(Mod32(q[0] as int - q[1]), c.rc) as int) - Apply(c.fx, q[1], q[2], q[3]) - c.ac - w[c.wx]);
    q[1..] + [a]
  }

  /**
    The arithmetic of one round, for any value `f` of the non-linear function, any added
    constant `k` and any rotation `r`: the word that drops out is recovered from the new one.
    */
  lemma RoundStepInverse(b: Word, a: Word, f: int, k: int, r: nat)
    requires 0 <= f + a + k
    ensures Mod32((RotRight(Mod32(Mod32(b + RotLeft(Mod32(f + a + k), r)) - b), r) as int) - f - k) == a
  {
    var x := Mod32(f + a + k);
    Mod32SubOfAdd(b, RotLeft(x, r));
    RotRightOfRotLeft(x, r);
    Mod32SubOfMod(f + a + k, f + k);
  }

  /**
    Each round is a bijection on the state: the words shift by one, and the new word
    `RoundQNext` puts in front determines the word that drops out, so running the round
    backwards undoes it.
    */
  lemma {:induction false} RoundPrevOfRound(w: seq<Word>, q: seq<Word>, c: RoundConsts)
    requires |w| == 16 && |q| == 4
    ensures Round(w, q, c)[1..] == q[..3]
    ensures RoundPrev(w, Round(w, q, c), c) == q
  {
    RoundStepInverse(q[0], q[3], Apply(c.fx, q[0], q[1], q[2]), (c.ac as int) + w[c.wx], c.rc);
  }

  /** The rounds with constants `cs` run backwards, the last one first. */
  function UndoRounds(w: seq<Word>, q: seq<Word>, cs: seq<RoundConsts>): (r: seq<Word>)
    requires |w| == 16 && |q| == 4
    ensures |r| == 4
    decreases |cs|
  {
    if |cs| == 0 then q else UndoRounds(w, RoundPrev(w, q, cs[|cs| - 1]), cs[..|cs| - 1])
  }

  /** The rounds are invertible for a fixed message block: running them backwards undoes them. */
  lemma {:induction false} UndoRoundsOfDoRounds(w: seq<Word>, q: seq<Word>, cs: seq<RoundConsts>)
    requires |w| == 16 && |q| == 4
    ensures UndoRounds(w, DoRounds(w, q, cs), cs) == q
    decreases |cs|
  {
    if |cs| > 0 {
      var earlier := cs[..|cs| - 1];
      RoundPrevOfRound(w, DoRounds(w, q, earlier), cs[|cs| - 1]);
      UndoRoundsOfDoRounds(w, q, earlier);
    }
  }

  /** The feed-forward addition `ihvs[k] + q[k]` modulo 2^32, word by word. */
  function FeedForward(ihvs: seq<Word>, q: seq<Word>): (r: seq<Word>)
    requires |ihvs| == 4 && |q| == 4
    ensures |r| == 4
  {
    [Mod32(ihvs[0] as int + q[0]), Mod32(ihvs[1] as int + q[1]), Mod32(ihvs[2] as int + q[2]), Mod32(ihvs[3] as int + q[3])]
  }

  /** Word-by-word subtraction modulo 2^32: the inverse of the feed-forward. */
  function FeedBack(ihvs: seq<Word>, r: seq<Word>): (q: seq<Word>)
    requires |ihvs| == 4 && |r| == 4
    ensures |q| == 4
  {
    [Mod32(r[0] as int - ihvs[0]), Mod32(r[1] as int - ihvs[1]), Mod32(r[2] as int - ihvs[2]), Mod32(r[3] as int - ihvs[3])]
  }

  lemma {:induction false} FeedBackOfFeedForward(ihvs: seq<Word>, q: seq<Word>)
    requires |ihvs| == 4 && |q| == 4
    ensures FeedBack(ihvs, FeedForward(ihvs, q)) == q
  {
    Mod32SubOfAdd(ihvs[0], q[0]);
    Mod32SubOfAdd(ihvs[1], q[1]);
    Mod32SubOfAdd(ihvs[2], q[2]);
    Mod32SubOfAdd(ihvs[3], q[3]);
  }

  /** Compression over the rotated chaining value `[b, c, d, a]`: 64 rounds, then the feed-forward. */
  function MD5CompressionInt(ihvs: seq<Word>, b: seq<Byte>): (r: seq<Word>)
    requires |ihvs| == 4 && |b| == 64
    ensures |r| == 4
  {
    FeedForward(ihvs, DoRounds(BinToInt(b), ihvs, RoundTable()))
  }

  /**
    Subtracting the input word by word gives back the state after the 64 rounds, and,
    given the message block, running them backwards recovers the input chaining value.
    */
  lemma {:induction false} FeedForwardRecoversInput(ihvs: seq<Word>, b: seq<Byte>)
    requires |ihvs| == 4 && |b| == 64
    ensures FeedBack(ihvs, MD5CompressionInt(ihvs, b)) == DoRounds(BinToInt(b), ihvs, RoundTable())
    ensures UndoRounds(BinToInt(b), FeedBack(ihvs, MD5CompressionInt(ihvs, b)), RoundTable()) == ihvs
  {
    FeedBackOfFeedForward(ihvs, DoRounds(BinToInt(b), ihvs, RoundTable()));
    UndoRoundsOfDoRounds(BinToInt(b), ihvs, RoundTable());
  }

  /** `[a, b, c, d]` to `[b, c, d, a]`. */
  function ArrSh(x: seq<Word>): (r: seq<Word>)
    requires |x| == 4
    ensures |r| == 4
  {
    [x[1], x[2], x[3], x[0]]
  }

  /** `[b, c, d, a]` back to `[a, b, c, d]`: the inverse of ArrSh. */
  function ArrUs(x: seq<Word>): (r: seq<Word>)
    requires |x| == 4
    ensures |r| == 4
    ensures ArrSh(r) == x
  {
    [x[3], x[0], x[1], x[2]]
  }

  lemma ArrUsOfArrSh(x: seq<Word>)
    requires |x| == 4
    ensures ArrUs(ArrSh(x)) == x
  {
  }

  /** The compression function of section 3.4 of RFC 1321 on a chaining value `[a, b, c, d]`. */
  function MD5Compression(ihv: seq<Word>, b: seq<Byte>): (r: seq<Word>)
    requires |ihv| == 4 && |b| == 64
    ensures |r| == 4
  {
    ArrUs(MD5CompressionInt(ArrSh(ihv), b))
  }

  /**
    The compression function is the Davies-Meyer construction: the input word `ihv[k]`
    is added to word `k` of the rounds' output, in the order `[a, b, c, d]` again after
    the rotations of md5.py:59-61; and, knowing the block, the input is recovered from
    the output by subtracting and running the rounds backwards.
    */
  lemma MD5CompressionFeedsForward(ihv: seq<Word>, b: seq<Byte>)
    requires |ihv| == 4 && |b| == 64
    ensures var e := ArrUs(DoRounds(BinToInt(b), ArrSh(ihv), RoundTable()));
      forall k :: 0 <= k < 4 ==> MD5Compression(ihv, b)[k] == Mod32(ihv[k] as int + e[k])
    ensures UndoRounds(BinToInt(b), FeedBack(ArrSh(ihv), ArrSh(MD5Compression(ihv, b))), RoundTable()) == ArrSh(ihv)
  {
    var q := DoRounds(BinToInt(b), ArrSh(ihv), RoundTable());
    RotatedFeedForward(ihv, q);
    var c := MD5CompressionInt(ArrSh(ihv), b);
    assert ArrSh(MD5Compression(ihv, b)) == c;
    FeedForwardRecoversInput(ArrSh(ihv), b);
  }

  /** Word `k` of the rotated feed-forward is the sum of word `k` on each side. */
  lemma RotatedFeedForward(ihv: seq<Word>, q: seq<Word>)
    requires |ihv| == 4 && |q| == 4
    ensures forall k :: 0 <= k < 4 ==> ArrUs(FeedForward(ArrSh(ihv), q))[k] == Mod32(ihv[k] as int + ArrUs(q)[k])
  {
  }

  // ---------------------------------------------------------------------------
  // Whole messages: chaining, padding, the digest (RFC 1321 sections 3.1-3.5)
  // ---------------------------------------------------------------------------

  /**
    The chaining value after compressing every whole 64-byte block of `m`, from `h`; a
    shorter tail is not consumed. This is the loop of md5.py:94-96, written as three
    mutually recursive steps, one per line of the loop: the test here, then ChainSplit
    and ChainCompress.
    */
  function ChainBlocks(h: seq<Word>, m: seq<Byte>): (r: seq<Word>)
    requires |h| == 4
    ensures |r| == 4
    decreases |m|, 2
  {
    if |m| < BLOCK_SIZE then h else ChainSplit(h, m)
  }

  /** The loop body's first step (md5.py:95): the first block is split off the buffer. */
  function ChainSplit(h: seq<Word>, m: seq<Byte>): (r: seq<Word>)
    requires |h| == 4 && |m| >= BLOCK_SIZE
    ensures |r| == 4
    decreases |m|, 1
  {
    ChainCompress(h, m[..BLOCK_SIZE], m[BLOCK_SIZE..])
  }

  /** The loop body's second step (md5.py:96): the split-off block is compressed, and the loop goes on. */
  function ChainCompress(h: seq<Word>, toCompress: seq<Byte>, rest: seq<Byte>): (r: seq<Word>)
    requires |h| == 4 && |toCompress| == BLOCK_SIZE
    ensures |r| == 4
    decreases |toCompress| + |rest|, 0
  {
    ChainBlocks(MD5Compression(h, toCompress), rest)
  }

  /** A positive multiple of 64 is at least one block, and one block less is still a multiple. */
  lemma Mod64Step(n: nat)
    requires n % 64 == 0 && n > 0
    ensures n >= 64 && (n - 64) % 64 == 0
  {
  }

  /** One more block keeps a length block-aligned. */
  lemma AlignedNext(n: nat)
    requires n % 64 == 0
    ensures (n + 64) % 64 == 0
  {
  }

  /** A block-aligned length plus a partial block leaves that partial block as the remainder. */
  lemma AlignedPlusTail(a: nat, t: nat)
    requires a % 64 == 0 && t < 64
    ensures (a + t) % 64 == t
  {
    assert a == 64 * (a / 64);
  }

  /** Cutting the remainder off a length leaves a block-aligned length. */
  lemma AlignedPart(n: nat)
    ensures n % 64 <= n && (n - n % 64) % 64 == 0
  {
    assert n - n % 64 == 64 * (n / 64);
  }

  /** One turn of the loop: a message of at least one block chains its first block, then the rest. */
  lemma ChainStep(h: seq<Word>, m: seq<Byte>)
    requires |h| == 4 && |m| >= BLOCK_SIZE
    ensures ChainBlocks(h, m) == ChainBlocks(MD5Compression(h, m[..BLOCK_SIZE]), m[BLOCK_SIZE..])
  {
    assert ChainBlocks(h, m) == ChainSplit(h, m);
    assert ChainSplit(h, m) == ChainCompress(h, m[..BLOCK_SIZE], m[BLOCK_SIZE..]);
  }

  /** A message of one block chains to the compression of that block. */
  lemma OneBlock(h: seq<Word>, blk: seq<Byte>)
    requires |h| == 4 && |blk| == BLOCK_SIZE
    ensures ChainBlocks(h, blk) == MD5Compression(h, blk)
  {
    ChainStep(h, blk);
    assert blk[..BLOCK_SIZE] == blk;
  }

  /** Chaining over a block-aligned prefix, then the rest, is chaining over the whole. */
  lemma {:induction false} ChainBlocksConcat(h: seq<Word>, a: seq<Byte>, b: seq<Byte>)
    requires |h| == 4 && |a| % 64 == 0
    ensures ChainBlocks(h, a + b) == ChainBlocks(ChainBlocks(h, a), b)
    decreases |a|
  {
    if |a| > 0 {
      Mod64Step(|a|);
      assert (a + b)[..64] == a[..64];
      assert (a + b)[64..] == a[64..] + b;
      ChainStep(h, a);
      ChainStep(h, a + b);
      ChainBlocksConcat(MD5Compression(h, a[..64]), a[64..], b);
    } else {
      assert a + b == b;
    }
  }

  /** Appending one block compresses it into the chaining value. */
  lemma {:induction false} ChainBlocksAppendBlock(h: seq<Word>, a: seq<Byte>, blk: seq<Byte>)
    requires |h| == 4 && |a| % 64 == 0 && |blk| == 64
    ensures ChainBlocks(h, a + blk) == MD5Compression(ChainBlocks(h, a), blk)
  {
    ChainBlocksConcat(h, a, blk);
    OneBlock(ChainBlocks(h, a), blk);
  }

  /** Bytes past the last whole block do not affect the chaining value. */
  lemma {:induction false} ChainBlocksIgnoresTail(h: seq<Word>, m: seq<Byte>, t: seq<Byte>)
    requires |h| == 4 && |m| % 64 == 0 && |t| < 64
    ensures ChainBlocks(h, m + t) == ChainBlocks(h, m)
  {
    ChainBlocksConcat(h, m, t);
  }

  function Pow256(n: nat): (r: nat)
    ensures r > 0
  {
    if n == 0 then 1 else 256 * Pow256(n - 1)
  }

  /** The `n` low-order bytes of `x`, least significant first (`x.to_bytes(n, 'little')` when `x` fits). */
  function LittleEndian(x: nat, n: nat): (r: seq<Byte>)
    ensures |r| == n
  {
    if n == 0 then [] else [x % 256] + LittleEndian(x / 256, n - 1)
  }

  /** The number a little-endian byte string denotes. */
  function LittleEndianValue(s: seq<Byte>): nat
  {
    if |s| == 0 then 0 else s[0] + 256 * LittleEndianValue(s[1..])
  }

  lemma {:induction false} LittleEndianValueOf(x: nat, n: nat)
    requires x < Pow256(n)
    ensures LittleEndianValue(LittleEndian(x, n)) == x
  {
    if n > 0 {
      DivBound(x, Pow256(n - 1));
      LittleEndianValueOf(x / 256, n - 1);
      assert LittleEndian(x, n)[1..] == LittleEndian(x / 256, n - 1);
    }
  }

  /** `word_to_int` is `int.from_bytes(x, 'little')` and `int_to_word` is `x.to_bytes(4, 'little')`. */
  lemma WordIsLittleEndian(x: seq<Byte>, v: Word)
    requires |x| == 4
    ensures WordToInt(x) == LittleEndianValue(x)
    ensures IntToWord(v) == LittleEndian(v, 4)
  {
    var x1, x2, x3 := x[1..], x[2..], x[3..];
    assert x1[1..] == x2 && x2[1..] == x3 && x3[1..] == [];
    assert LittleEndianValue(x3) == x[3];
    assert LittleEndianValue(x2) == x[2] as int + 256 * (x[3] as int);
    assert LittleEndianValue(x1) == x[1] + 256 * LittleEndianValue(x2);
    var v1, v2, v3 := v / 256, v / 0x1_0000, v / 0x100_0000;
    assert v1 / 256 == v2 && v2 / 256 == v3 && v3 < 256;
    assert LittleEndian(v3, 1) == [v3];
    assert LittleEndian(v2, 2) == [v2 % 256, v3];
    assert LittleEndian(v1, 3) == [v1 % 256, v2 % 256, v3];
  }

  /** Word `i` of `bin_to_int(x)` is the little-endian value of bytes `4i` to `4i + 3` of `x`. */
  lemma BinToIntAt(x: seq<Byte>, i: nat)
    requires i < |x| / 4
    ensures BinToInt(x)[i] == LittleEndianValue(x[4 * i .. 4 * i + 4])
  {
    WordIsLittleEndian(x[4 * i .. 4 * i + 4], 0);
  }

  /** Bytes `4i` to `4i + 3` of `int_to_bin(w)` are word `i` of `w`, least significant byte first. */
  lemma IntToBinAt(w: seq<Word>, i: nat)
    requires i < |w|
    ensures IntToBin(w)[4 * i .. 4 * i + 4] == LittleEndian(w[i], 4)
  {
    var ws := seq(|w|, k requires 0 <= k < |w| => IntToWord(w[k]));
    BinToWordsOfWordsToBin(ws);
    assert BinToWords(IntToBin(w))[i] == ws[i];
    WordIsLittleEndian(ws[i], w[i]);
  }

  lemma DivBound(x: nat, p: nat)
    requires x < 256 * p
    ensures x / 256 < p
  {
  }

  lemma Pow256Of8()
    ensures Pow256(8) == TWO_POW_64
  {
  }

  /** The 8-byte length field as written at md5.py:105: `to_bytes` raises once the bit count needs more than 64 bits. */
  function LengthFieldAsWritten(bits: nat): Option<seq<Byte>>
  {
    if bits < TWO_POW_64 then Some(LittleEndian(bits, 8)) else None
  }

  /** The 8-byte length field of section 3.2 of RFC 1321: the bit count modulo 2^64, little-endian. */
  function LengthField(bits: nat): (r: seq<Byte>)
    ensures |r| == 8
    ensures LittleEndianValue(r) == bits % TWO_POW_64
  {
    Pow256Of8();
    LittleEndianValueOf(bits % TWO_POW_64, 8);
    LittleEndian(bits % TWO_POW_64, 8)
  }

  /** The two agree wherever the written code does not raise. */
  lemma LengthFieldAgrees(bits: nat)
    requires bits < TWO_POW_64
    ensures LengthFieldAsWritten(bits) == Some(LengthField(bits))
  {
    assert bits % TWO_POW_64 == bits;
  }

  /** A message of 2^61 bytes has 2^64 bits: the written code raises where RFC 1321 keeps the low 64 bits. */
  lemma LengthFieldOverflows()
    ensures LengthFieldAsWritten(8 * 0x2000_0000_0000_0000) == None
    ensures LengthField(8 * 0x2000_0000_0000_0000) == [0, 0, 0, 0, 0, 0, 0, 0]
  {
    assert LittleEndian(0, 8) == [0, 0, 0, 0, 0, 0, 0, 0];
  }

  /** The number of zero bytes after the 0x80 byte (md5.py:103). */
  function ZeroLen(totalBytes: nat): nat
  {
    (56 - (totalBytes + 1)) % 64
  }

  /** The 0x80 byte, the zero bytes and the 8-byte length always end the message on a block boundary. */
  lemma PaddedLength(totalBytes: nat)
    ensures ZeroLen(totalBytes) < 64 && (totalBytes + 1 + ZeroLen(totalBytes) + 8) % 64 == 0
  {
    var z := ZeroLen(totalBytes);
    var q := (56 - (totalBytes + 1)) / 64;
    assert 56 - (totalBytes + 1) == 64 * q + z;
    assert totalBytes + 1 + z + 8 == 64 * (1 - q);
  }

  /**
    The padding of sections 3.1-3.2 of RFC 1321 for a message of `totalBytes` bytes:
    the byte 0x80, fewer than 64 zero bytes, then the 8-byte bit length, ending on
    a block boundary.
    */
  function Padding(totalBytes: nat): (p: seq<Byte>)
    ensures 9 <= |p| < 9 + 64
    ensures (totalBytes + |p|) % 64 == 0
    ensures p[0] == 0x80
    ensures forall k :: 1 <= k < |p| - 8 ==> p[k] == 0
    ensures p[|p| - 8..] == LengthField(totalBytes * 8)
  {
    PaddedLength(totalBytes);
    [0x80] + Zeros(ZeroLen(totalBytes)) + LengthField(totalBytes * 8)
  }

  /** `n` zero bytes (`[0] * n`). */
  function Zeros(n: nat): (z: seq<Byte>)
    ensures |z| == n && forall k :: 0 <= k < n ==> z[k] == 0
  {
    if n == 0 then [] else [0] + Zeros(n - 1)
  }

  /**
    Compressing what is buffered followed by more bytes continues the chaining over
    everything passed to `update` followed by those bytes.
    */
  lemma {:induction false} ChainBuffered(iv: seq<Word>, consumed: seq<Byte>, buf: seq<Byte>, more: seq<Byte>)
    requires |iv| == 4 && |buf| == |consumed| % 64 && buf == consumed[|consumed| - |buf|..]
    ensures ChainBlocks(ChainBlocks(iv, consumed), buf + more) == ChainBlocks(iv, consumed + more)
  {
    var done := consumed[..|consumed| - |buf|];
    AlignedPart(|consumed|);
    assert done + buf == consumed;
    ChainBlocksIgnoresTail(iv, done, buf);
    ChainBlocksConcat(iv, done, buf + more);
    assert done + (buf + more) == consumed + more;
  }

  /** The MD5 digest of a whole message (section 3.5 of RFC 1321): the final chaining value, little-endian. */
  function Md5Digest(msg: seq<Byte>): (d: seq<Byte>)
    ensures |d| == 16
  {
    IntToBin(ChainBlocks(IHV0, msg + Padding(|msg|)))
  }

  // ---------------------------------------------------------------------------
  // The incremental hasher (md5.py:64-131)
  // ---------------------------------------------------------------------------

  class MD5 {
    /** The chaining value after every whole block consumed so far (`_ihv`). */
    var ihv: seq<Word>
    /** The number of bits passed to `update`. */
    var bits: nat
    /** The bytes of an incomplete block, not yet compressed. */
    var buf: seq<Byte>

    /** The chaining value this hasher started from: IHV0 for a fresh hasher. */
    ghost var iv: seq<Word>
    /** Every byte passed to `update`, in order. */
    ghost var consumed: seq<Byte>

    ghost predicate Valid()
      reads this
    {
      && |iv| == 4
      && bits == 8 * |consumed|
      && |buf| == |consumed| % 64
      && buf == consumed[|consumed| - |buf|..]
      && ihv == ChainBlocks(iv, consumed)
    }

    /** A hasher over IHV0 that has consumed `data` (an empty `data` stands for Python's `None`). */
    constructor (data: seq<Byte>)
      ensures Valid()
      ensures iv == IHV0 && consumed == data
    {
      ihv := IHV0;
      bits := 0;
      buf := [];
      iv := IHV0;
      consumed := [];
      new;
      if |data| > 0 {
        Update(data);
      }
      assert consumed == data;
    }

    /** Appends `data` and compresses every complete block, keeping fewer than 64 bytes buffered. */
    method Update(data: seq<Byte>)
      requires Valid()
      modifies this
      ensures Valid()
      ensures consumed == old(consumed) + data && iv == old(iv)
      ensures |buf| < 64 && bits == old(bits) + 8 * |data|
    {
      bits := bits + |data| * 8;
      consumed := consumed + data;
      var h, pending := ihv, buf + data;
      ghost var done := old(consumed)[..|old(consumed)| - |old(buf)|];
      assert done + old(buf) == old(consumed);
      AlignedPart(|old(consumed)|);
      ChainBlocksIgnoresTail(iv, done, old(buf));
      while |pending| >= 64
        invariant iv == old(iv) && consumed == old(consumed) + data && bits == old(bits) + |data| * 8
        invariant consumed == done + pending
        invariant |done| % 64 == 0
        invariant h == ChainBlocks(iv, done)
        decreases |pending|
      {
        var toCompress := pending[..64];
        ChainBlocksAppendBlock(iv, done, toCompress);
        h := MD5Compression(h, toCompress);
        assert toCompress + pending[64..] == pending;
        AlignedNext(|done|);
        pending := pending[64..];
        done := done + toCompress;
      }
      ChainBlocksIgnoresTail(iv, done, pending);
      AlignedPlusTail(|done|, |pending|);
      assert consumed[|done|..] == pending;
      ihv, buf := h, pending;
    }

    /**
      The digest of everything consumed (from `iv`), computed on a fresh hasher so that
      this one is not changed (the method may modify no field of `this`).
      */
    method Digest() returns (d: seq<Byte>)
      requires Valid()
      ensures d == IntToBin(ChainBlocks(iv, consumed + Padding(|consumed|)))
      ensures iv == IHV0 ==> d == Md5Digest(consumed)
    {
      var totalBytes := bits / 8;
      assert totalBytes == |consumed|;
      var pad := Padding(totalBytes);
      ChainBuffered(iv, consumed, buf, pad);
      var temp := new MD5([]);
      temp.ihv := ihv;
      temp.iv := ihv;
      temp.Update(buf + pad);
      assert [] + (buf + pad) == buf + pad;
      var digestValue := temp.ihv;
      d := IntToBin(digestValue);
    }

    method HexDigest() returns (s: string)
      requires Valid()
      ensures iv == IHV0 ==> s == Hexlify(Md5Digest(consumed))
      ensures |s| == 32 && IsLowerHex(s)
    {
      var d := Digest();
      s := Hexlify(d);
    }

    /** The current chaining value, before any padding, as 16 little-endian bytes. */
    method Ihv() returns (r: seq<Byte>)
      requires Valid()
      ensures r == IntToBin(ChainBlocks(iv, consumed))
      ensures |consumed| < 64 ==> r == IntToBin(iv)
      ensures BinToInt(r) == ihv
    {
      r := IntToBin(ihv);
      BinToIntOfIntToBin(ihv);
    }

    method HexIhv() returns (s: string)
      requires Valid()
      ensures s == Hexlify(IntToBin(ChainBlocks(iv, consumed)))
      ensures iv == IHV0 && |consumed| < 64 ==> s == IHV0_HEX
    {
      var r := Ihv();
      s := Hexlify(r);
      if iv == IHV0 && |consumed| < 64 {
        Ihv0OfBytes();
        Ihv0Hex();
      }
    }
  }

  /**
    Hashing `s[..i]`, asking for the digest, then updating with `s[i..]` gives the
    digest of `s` hashed in one call, for every split point.
    */
  method HashingResume(s: seq<Byte>, i: nat) returns (expected: string, got: string)
    requires i <= |s|
    ensures got == expected
    ensures expected == Hexlify(Md5Digest(s))
  {
    expected := HexOfWhole(s);
    got := DigestThenUpdate(s, i);
  }

  /** Hashing `s` in one call. */
  method HexOfWhole(s: seq<Byte>) returns (h: string)
    ensures h == Hexlify(Md5Digest(s))
  {
    var whole := new MD5(s);
    h := whole.HexDigest();
  }

  /** Asking for the digest of `s[..i]` in the middle does not disturb hashing `s[..i]` then `s[i..]`. */
  method DigestThenUpdate(s: seq<Byte>, i: nat) returns (got: string)
    requires i <= |s|
    ensures got == Hexlify(Md5Digest(s))
  {
    var head, tail := s[..i], s[i..];
    assert head + tail == s;
    var split := new MD5(head);
    var discard := split.Digest();
    split.Update(tail);
    got := split.HexDigest();
  }

  /** The chaining value depends only on the bytes consumed, however `update` calls split them. */
  method IhvIndependentOfSplit(a: seq<Byte>, b: seq<Byte>) returns (once: seq<Byte>, twice: seq<Byte>)
    ensures once == twice
    ensures once == IntToBin(ChainBlocks(IHV0, a + b))
  {
    var h1 := new MD5(a + b);
    once := h1.Ihv();
    var h2 := new MD5(a);
    h2.Update(b);
    twice := h2.Ihv();
  }
}
