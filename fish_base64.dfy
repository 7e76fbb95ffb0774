/** The base64 variant of FiSH and mircryption, used by Blowfish ECB mode.
    It is not the base64 of RFC 4648: the alphabet starts "./0-9", each
    8-byte block is read as two big-endian 32-bit halves, and each half is
    written as six characters, low six bits first, right half before left
    half. The code runs on C `int`s, so the model uses `bv32` with two's
    complement wrap-around and an arithmetic right shift. */
module FishBase64 {
  import opened ByteArrays

  /** The character for digit `d`, that is `base64.at(d)` for the alphabet
      "./0123456789abcdefghijklmnopqrstuvwxyzABCDEFGHIJKLMNOPQRSTUVWXYZ".
      It has three runs of consecutive bytes: '.', '/' and '0'-'9' from
      0x2E, 'a'-'z' from 0x61 and 'A'-'Z' from 0x41. */
  function Digit(d: bv6): Byte {
    if d < 12 then d as bv8 + 0x2E
    else if d < 38 then d as bv8 - 12 + 0x61
    else d as bv8 - 38 + 0x41
  }

  /** `base64.indexOf(c)`: the position of a byte in the alphabet, or -1
      (all bits set) for a byte outside it. */
  function DigitValue(c: Byte): bv32 {
    if 0x2E <= c <= 0x39 then (c - 0x2E) as bv32
    else if 0x61 <= c <= 0x7A then (c - 0x61 + 12) as bv32
    else if 0x41 <= c <= 0x5A then (c - 0x41 + 38) as bv32
    else 0xFFFF_FFFF
  }

  // ---------------------------------------------------------------------
  // 32-bit arithmetic of the C code

  /** `x >> n` on a signed 32-bit int: the sign bit is copied in from the left. */
  function Sar(x: bv32, n: bv32): (r: bv32)
    requires n < 32
    ensures x & 0x8000_0000 == 0 ==> r == x >> n
  {
    if x & 0x8000_0000 == 0 then x >> n else (x >> n) | !(0xFFFF_FFFF >> n)
  }

  /** `v = text.at(k); if (v < 0) v += 256;`: the (signed) char widened to an
      int, corrected back to 0..255. */
  function Unsigned(c: Byte): (v: bv32)
    ensures v == c as bv32
  {
    var v := if c & 0x80 != 0 then c as bv32 | 0xFFFF_FF00 else c as bv32;
    if v & 0x8000_0000 != 0 then v + 256 else v
  }

  /** Four bytes as one big-endian 32-bit word, built with `<<` and `+=`. */
  function Pack(v0: Byte, v1: Byte, v2: Byte, v3: Byte): bv32 {
    (((Unsigned(v0) << 24) + (Unsigned(v1) << 16)) + (Unsigned(v2) << 8)) + Unsigned(v3)
  }

  /** Byte `i` (0 = most significant) of a word, as the decoder extracts it:
      mask with `0xFF << s`, shift right arithmetically by `s`, add 256 when
      negative, and append the int as a char (its low eight bits). The shift
      `s` is `(3 - i) * 8`, written out per byte. */
  function UnpackByte(w: bv32, i: nat): Byte
    requires i < 4
  {
    var z :=
      if i == 0 then Sar(w & 0xFF00_0000, 24)
      else if i == 1 then Sar(w & 0xFF_0000, 16)
      else if i == 2 then Sar(w & 0xFF00, 8)
      else Sar(w & 0xFF, 0);
    var z' := if z & 0x8000_0000 != 0 then z + 256 else z;
    (z' & 0xFF) as bv8
  }

  function Unpack(w: bv32): (r: Bytes)
    ensures |r| == 4
  {
    [UnpackByte(w, 0), UnpackByte(w, 1), UnpackByte(w, 2), UnpackByte(w, 3)]
  }

  // ---------------------------------------------------------------------
  // Encoding (byteToB64)

  /** The character for the low six bits of `w`: `base64.at(w & 0x3F)`. */
  function DigitOf(w: bv32): Byte {
    Digit((w & 0x3F) as bv6)
  }

  /** A word after `k` arithmetic shifts right by six. */
  function Shifted(w: bv32, k: nat): bv32
    decreases k
  {
    if k == 0 then w else Shifted(Sar(w, 6), k - 1)
  }

  /** `n` characters of a word: low six bits first, shifting right by six
      (arithmetically) after each. */
  function EncodeWord(w: bv32, n: nat): (r: Bytes)
  {
    seq(n, i requires 0 <= i < n => DigitOf(Shifted(w, i)))
  }

  /** One 8-byte block: the right half's six characters, then the left half's. */
  function EncodeBlock(b: Bytes): (r: Bytes)
    requires |b| == 8
    ensures |r| == 12
  {
    EncodeWord(Pack(b[4], b[5], b[6], b[7]), 6) + EncodeWord(Pack(b[0], b[1], b[2], b[3]), 6)
  }

  /** The encoding of a whole byte array, block after block. */
  function Encoding(t: Bytes): (r: Bytes)
    requires |t| % 8 == 0
    decreases |t|
  {
    if |t| == 0 then [] else Encoding(t[..|t| - 8]) + EncodeBlock(t[|t| - 8..])
  }

  /** Encoding one more block appends the six characters of its right half,
      then the six of its left half. */
  lemma EncodingStep(t: Bytes, p: nat)
    requires |t| % 8 == 0 && p % 8 == 0 && p < |t|
    ensures p + 8 <= |t|
    ensures Encoding(t[..p + 8]) == Encoding(t[..p])
      + EncodeWord(Pack(t[p + 4], t[p + 5], t[p + 6], t[p + 7]), 6)
      + EncodeWord(Pack(t[p], t[p + 1], t[p + 2], t[p + 3]), 6)
  {
    TakeTake(t, p, p + 8);
    TakeDrop(t, p, p + 8);
    var b := t[p..p + 8];
    assert b[0] == t[p] && b[1] == t[p + 1] && b[2] == t[p + 2] && b[3] == t[p + 3];
    assert b[4] == t[p + 4] && b[5] == t[p + 5] && b[6] == t[p + 6] && b[7] == t[p + 7];
    AppendAssoc(Encoding(t[..p]), EncodeWord(Pack(b[4], b[5], b[6], b[7]), 6), EncodeWord(Pack(b[0], b[1], b[2], b[3]), 6));
  }

  /** byteToB64: the caller (blowfishECB) only passes whole blocks. */
  method ByteToB64(text: Bytes) returns (encoded: Bytes)
    requires |text| % 8 == 0
    ensures encoded == Encoding(text)
  {
    var k := -1;
    encoded := [];
    while k < |text| - 1
      invariant -1 <= k < |text| && (k + 1) % 8 == 0
      invariant encoded == Encoding(text[..k + 1])
    {
      ghost var start := k + 1;
      EncodingStep(text, start);
      var left, right;
      left, k := ReadWord(text, k);
      right, k := ReadWord(text, k);
      encoded := EncodeHalf(encoded, right);
      encoded := EncodeHalf(encoded, left);
      assert text[..k + 1] == text[..start + 8];
    }
    TakeAll(text);
  }

  /** Four consecutive reads of byteToB64 after position `k0`, each
      `k++; v = text.at(k); if (v < 0) v += 256;` added in at its shift. */
  method ReadWord(text: Bytes, k0: int) returns (word: bv32, k: int)
    requires -1 <= k0 && k0 + 4 < |text|
    ensures k == k0 + 4
    ensures word == Pack(text[k0 + 1], text[k0 + 2], text[k0 + 3], text[k0 + 4])
  {
    k := k0 + 1;
    var v := Unsigned(text[k]);
    word := v << 24;
    k := k + 1;
    v := Unsigned(text[k]);
    word := word + (v << 16);
    k := k + 1;
    v := Unsigned(text[k]);
    word := word + (v << 8);
    k := k + 1;
    v := Unsigned(text[k]);
    word := word + v;
  }

  /** One of the two `for (int i = 0; i < 6; i++)` loops of byteToB64. */
  method EncodeHalf(encoded0: Bytes, half0: bv32) returns (encoded: Bytes)
    ensures encoded == encoded0 + EncodeWord(half0, 6)
  {
    encoded := encoded0;
    var half := half0;
    for i := 0 to 6
      invariant encoded + EncodeWord(half, 6 - i) == encoded0 + EncodeWord(half0, 6)
    {
      AppendAssoc(encoded, [DigitOf(half)], EncodeWord(Sar(half, 6), 5 - i));
      encoded := encoded + [DigitOf(half)];
      half := Sar(half, 6);
    }
  }

  // ---------------------------------------------------------------------
  // Decoding (b64ToByte)

  /** The shift `i * 6` of character `i`. */
  function Shift(i: nat): (r: bv32)
    requires i < 6
    ensures r <= 30
  {
    if i == 0 then 0 else if i == 1 then 6 else if i == 2 then 12
    else if i == 3 then 18 else if i == 4 then 24 else 30
  }

  /** One step of the decoder's loop: `word |= v << (i * 6)`. */
  function Put(word: bv32, v: bv32, i: nat): bv32
    requires i < 6
  {
    word | (v << Shift(i))
  }

  /** `Put` shifts by `i * 6`, as the C code does. */
  lemma ShiftIsTimesSix(v: bv32, i: nat)
    requires i < 6
    ensures v << Shift(i) == v << (i * 6)
  {
    if i == 0 {} else if i == 1 {} else if i == 2 {} else if i == 3 {} else if i == 4 {} else {}
  }

  /** The word assembled from the `n` characters of `cs` at offset `o`:
      the first `n` steps of one six-character loop of b64ToByte. */
  function Assemble(cs: Bytes, o: nat, n: nat): bv32
    requires o + n <= |cs| && n <= 6
  {
    if n == 0 then 0 else Put(Assemble(cs, o, n - 1), DigitValue(cs[o + n - 1]), n - 1)
  }

  /** One 12-character block: the first six characters give the right half,
      the next six the left half; the left half's bytes come out first. */
  function DecodeBlock(cs: Bytes): (r: Bytes)
    requires |cs| == 12
    ensures |r| == 8
  {
    Unpack(Assemble(cs, 6, 6)) + Unpack(Assemble(cs, 0, 6))
  }

  function Decoding(s: Bytes): (r: Bytes)
    requires |s| % 12 == 0
    decreases |s|
  {
    if |s| == 0 then [] else Decoding(s[..|s| - 12]) + DecodeBlock(s[|s| - 12..])
  }

  /** `Assemble` looks only at the characters it reads. */
  lemma {:induction false} AssembleSame(a: Bytes, oa: nat, b: Bytes, ob: nat, n: nat)
    requires oa + n <= |a| && ob + n <= |b| && n <= 6
    requires forall i :: oa <= i < oa + n ==> a[i] == b[i - oa + ob]
    ensures Assemble(a, oa, n) == Assemble(b, ob, n)
    decreases n
  {
    if n > 0 {
      AssembleSame(a, oa, b, ob, n - 1);
      assert a[oa + n - 1] == b[oa + n - 1 - oa + ob];
    }
  }

  /** The halves of a block read from the two parts of a concatenation. */
  lemma AssembleAppend(x: Bytes, y: Bytes)
    requires |x| == 6 && |y| == 6
    ensures Assemble(x + y, 0, 6) == Assemble(x, 0, 6)
    ensures Assemble(x + y, 6, 6) == Assemble(y, 0, 6)
  {
    AssembleSame(x + y, 0, x, 0, 6);
    AssembleSame(x + y, 6, y, 0, 6);
  }

  /** Decoding one more block appends the bytes of its left half, then
      those of its right half. */
  lemma DecodingStep(s: Bytes, p: nat)
    requires |s| % 12 == 0 && p % 12 == 0 && p < |s|
    ensures p + 12 <= |s|
    ensures Decoding(s[..p + 12]) == Decoding(s[..p]) + Unpack(Assemble(s, p + 6, 6)) + Unpack(Assemble(s, p, 6))
  {
    TakeTake(s, p, p + 12);
    TakeDrop(s, p, p + 12);
    var cs := s[p..p + 12];
    AssembleSame(cs, 6, s, p + 6, 6);
    AssembleSame(cs, 0, s, p, 6);
    AppendAssoc(Decoding(s[..p]), Unpack(Assemble(s, p + 6, 6)), Unpack(Assemble(s, p, 6)));
  }

  /** b64ToByte: the caller (blowfishECB) rejects lengths that are not a
      multiple of 12 before calling it. */
  method B64ToByte(text: Bytes) returns (decoded: Bytes)
    requires |text| % 12 == 0
    ensures decoded == Decoding(text)
  {
    decoded := [];
    var k := -1;
    while k < |text| - 1
      invariant -1 <= k < |text| && (k + 1) % 12 == 0
      invariant decoded == Decoding(text[..k + 1])
    {
      ghost var start := k + 1;
      DecodingStep(text, start);
      var right, left;
      right, k := DecodeHalf(text, k);
      left, k := DecodeHalf(text, k);
      decoded := AppendWord(decoded, left);
      decoded := AppendWord(decoded, right);
      assert text[..k + 1] == text[..start + 12];
    }
    TakeAll(text);
  }

  /** One of the two six-character loops of b64ToByte: reads the characters
      after position `k0` into a word. */
  method DecodeHalf(text: Bytes, k0: int) returns (word: bv32, k: int)
    requires -1 <= k0 && k0 + 6 < |text|
    ensures k == k0 + 6
    ensures word == Assemble(text, k0 + 1, 6)
  {
    word := 0;
    k := k0;
    for i := 0 to 6
      invariant k == k0 + i
      invariant word == Assemble(text, k0 + 1, i)
    {
      k := k + 1;
      var v := DigitValue(text[k]);
      word := Put(word, v, i);
    }
  }

  /** One of the two four-byte loops of b64ToByte. */
  method AppendWord(decoded0: Bytes, w: bv32) returns (decoded: Bytes)
    ensures decoded == decoded0 + Unpack(w)
  {
    decoded := decoded0;
    for i := 0 to 4
      invariant decoded == decoded0 + Unpack(w)[..i]
    {
      assert Unpack(w)[..i + 1] == Unpack(w)[..i] + [UnpackByte(w, i)];
      decoded := decoded + [UnpackByte(w, i)];
    }
  }

  // ---------------------------------------------------------------------
  // The alphabet

  /** The alphabet as the code writes it, in its three runs. */
  const Alphabet: string := "./0123456789" + "abcdefghijklmnopqrstuvwxyz" + "ABCDEFGHIJKLMNOPQRSTUVWXYZ"

  /** `Digit` is the alphabet: the character at position `d` of the
      literal has the byte value `Digit(d)`, and the literal has one
      character per digit. */
  lemma DigitIsAlphabet(d: bv6)
    ensures |Alphabet| == 64
    ensures Alphabet[d as int] as int == Digit(d) as int
  {
    var i := d as int;
    var digits, lower, upper := "./0123456789", "abcdefghijklmnopqrstuvwxyz", "ABCDEFGHIJKLMNOPQRSTUVWXYZ";
    if i < 12 {
      assert Alphabet[i] == digits[i];
    } else if i < 38 {
      assert Alphabet[i] == lower[i - 12];
    } else {
      assert Alphabet[i] == upper[i - 38];
    }
  }

  /** Reading a digit back gives its value: `base64.indexOf(base64.at(d)) == d`. */
  lemma DigitValueOfDigit(d: bv6)
    ensures DigitValue(Digit(d)) == d as bv32
  {}

  /** A byte either is the digit of its value or is outside the alphabet. */
  lemma DigitValueOnto(c: Byte)
    ensures DigitValue(c) == 0xFFFF_FFFF || (DigitValue(c) < 64 && Digit(DigitValue(c) as bv6) == c)
  {}

  /** No character occurs twice in the alphabet, so `indexOf` finds the
      only position. */
  lemma DigitsDistinct(d: bv6, e: bv6)
    requires d != e
    ensures Digit(d) != Digit(e)
  {
    DigitValueOfDigit(d);
    DigitValueOfDigit(e);
  }

  // ---------------------------------------------------------------------
  // Properties

  /** Every 8-byte block becomes exactly 12 characters. */
  lemma {:induction false} EncodingLength(t: Bytes)
    requires |t| % 8 == 0
    ensures |Encoding(t)| == |t| / 8 * 12 && |Encoding(t)| % 12 == 0
    decreases |t|
  {
    if |t| > 0 { EncodingLength(t[..|t| - 8]); }
  }

  /** A byte of the alphabet: one `Digit` gives. */
  ghost predicate InAlphabet(c: Byte) {
    exists d: bv6 :: Digit(d) == c
  }

  lemma {:induction false} EncodeWordInAlphabet(w: bv32, n: nat)
    ensures forall i :: 0 <= i < n ==> InAlphabet(EncodeWord(w, n)[i])
    decreases n
  {
    if n > 0 {
      EncodeWordInAlphabet(Sar(w, 6), n - 1);
      forall i | 0 <= i < n ensures InAlphabet(EncodeWord(w, n)[i]) {
        if i > 0 {
          assert EncodeWord(w, n)[i] == EncodeWord(Sar(w, 6), n - 1)[i - 1];
        } else {
          assert EncodeWord(w, n)[0] == Digit((w & 0x3F) as bv6);
        }
      }
    }
  }

  /** Every character of an encoding is drawn from the 64-character alphabet. */
  lemma {:induction false} EncodingInAlphabet(t: Bytes)
    requires |t| % 8 == 0
    ensures forall i :: 0 <= i < |Encoding(t)| ==> InAlphabet(Encoding(t)[i])
    decreases |t|
  {
    if |t| > 0 {
      var b := t[|t| - 8..];
      EncodingInAlphabet(t[..|t| - 8]);
      EncodeWordInAlphabet(Pack(b[4], b[5], b[6], b[7]), 6);
      EncodeWordInAlphabet(Pack(b[0], b[1], b[2], b[3]), 6);
      var e := Encoding(t);
      var e0 := Encoding(t[..|t| - 8]);
      forall i | 0 <= i < |e| ensures InAlphabet(e[i]) {
        if i < |e0| {
          assert e[i] == e0[i];
        } else if i < |e0| + 6 {
          assert e[i] == EncodeWord(Pack(b[4], b[5], b[6], b[7]), 6)[i - |e0|];
        } else {
          assert e[i] == EncodeWord(Pack(b[0], b[1], b[2], b[3]), 6)[i - |e0| - 6];
        }
      }
    }
  }

  /** Every 12-character block becomes exactly 8 bytes. */
  lemma {:induction false} DecodingLength(s: Bytes)
    requires |s| % 12 == 0
    ensures |Decoding(s)| == |s| / 12 * 8
    decreases |s|
  {
    if |s| > 0 { DecodingLength(s[..|s| - 12]); }
  }

  /** Reading back a written digit gives the low six bits of the word. */
  lemma DigitValueOf(w: bv32)
    ensures DigitValue(DigitOf(w)) == w & 0x3F
  {
    DigitValueOfDigit((w & 0x3F) as bv6);
  }

  lemma Chunk0(w: bv32) ensures (w & 0x3F) << 0 == w & 0x3F {}
  lemma Chunk1(w: bv32) ensures (Sar(w, 6) & 0x3F) << 6 == w & 0xFC0 {}
  lemma Chunk2(w: bv32) ensures (Sar(Sar(w, 6), 6) & 0x3F) << 12 == w & 0x3_F000 {}
  lemma Chunk3(w: bv32) ensures (Sar(Sar(Sar(w, 6), 6), 6) & 0x3F) << 18 == w & 0xFC_0000 {}
  lemma Chunk4(w: bv32) ensures (Sar(Sar(Sar(Sar(w, 6), 6), 6), 6) & 0x3F) << 24 == w & 0x3F00_0000 {}
  lemma Chunk5(w: bv32)
    ensures (Sar(Sar(Sar(Sar(Sar(w, 6), 6), 6), 6), 6) & 0x3F) << 30 == w & 0xC000_0000
  {}

  /** The six steps of `Assemble` written out. */
  lemma AssembleSix(cs: Bytes)
    requires |cs| == 6
    ensures Assemble(cs, 0, 6) == Put(Put(Put(Put(Put(Put(0,
      DigitValue(cs[0]), 0), DigitValue(cs[1]), 1), DigitValue(cs[2]), 2),
      DigitValue(cs[3]), 3), DigitValue(cs[4]), 4), DigitValue(cs[5]), 5)
  {
    assert Assemble(cs, 0, 1) == Put(0, DigitValue(cs[0]), 0);
    assert Assemble(cs, 0, 2) == Put(Assemble(cs, 0, 1), DigitValue(cs[1]), 1);
    assert Assemble(cs, 0, 3) == Put(Assemble(cs, 0, 2), DigitValue(cs[2]), 2);
    assert Assemble(cs, 0, 4) == Put(Assemble(cs, 0, 3), DigitValue(cs[3]), 3);
    assert Assemble(cs, 0, 5) == Put(Assemble(cs, 0, 4), DigitValue(cs[4]), 4);
  }

  /** Six values that each put back their six bits of `w` give `w`. */
  lemma PutChunks(w: bv32, d0: bv32, d1: bv32, d2: bv32, d3: bv32, d4: bv32, d5: bv32)
    requires d0 << 0 == w & 0x3F && d1 << 6 == w & 0xFC0 && d2 << 12 == w & 0x3_F000
    requires d3 << 18 == w & 0xFC_0000 && d4 << 24 == w & 0x3F00_0000 && d5 << 30 == w & 0xC000_0000
    ensures Put(Put(Put(Put(Put(Put(0, d0, 0), d1, 1), d2, 2), d3, 3), d4, 4), d5, 5) == w
  {
    assert Shift(0) == 0 && Shift(1) == 6 && Shift(2) == 12;
    assert Shift(3) == 18 && Shift(4) == 24 && Shift(5) == 30;
  }

  /** Six characters whose values each put back their six bits of `w`
      assemble to `w`. */
  lemma AssembleChunks(w: bv32, cs: Bytes)
    requires |cs| == 6 && DigitValue(cs[0]) << 0 == w & 0x3F && DigitValue(cs[1]) << 6 == w & 0xFC0
    requires DigitValue(cs[2]) << 12 == w & 0x3_F000 && DigitValue(cs[3]) << 18 == w & 0xFC_0000
    requires DigitValue(cs[4]) << 24 == w & 0x3F00_0000 && DigitValue(cs[5]) << 30 == w & 0xC000_0000
    ensures Assemble(cs, 0, 6) == w
  {
    AssembleSix(cs);
    PutChunks(w, DigitValue(cs[0]), DigitValue(cs[1]), DigitValue(cs[2]),
      DigitValue(cs[3]), DigitValue(cs[4]), DigitValue(cs[5]));
  }

  /** One more shift of a shifted word. */
  lemma {:induction false} ShiftedStep(w: bv32, k: nat)
    ensures Shifted(w, k + 1) == Sar(Shifted(w, k), 6)
    decreases k
  {
    if k > 0 {
      ShiftedStep(Sar(w, 6), k - 1);
    }
  }

  lemma ShiftedChunk1(w: bv32) ensures (Shifted(w, 1) & 0x3F) << 6 == w & 0xFC0 {
    Chunk1(w);
  }

  lemma ShiftedChunk2(w: bv32) ensures (Shifted(w, 2) & 0x3F) << 12 == w & 0x3_F000 {
    ShiftedStep(w, 1);
    Chunk2(w);
  }

  lemma ShiftedChunk3(w: bv32) ensures (Shifted(w, 3) & 0x3F) << 18 == w & 0xFC_0000 {
    ShiftedStep(w, 1);
    ShiftedStep(w, 2);
    Chunk3(w);
  }

  lemma ShiftedChunk4(w: bv32) ensures (Shifted(w, 4) & 0x3F) << 24 == w & 0x3F00_0000 {
    ShiftedStep(w, 1);
    ShiftedStep(w, 2);
    ShiftedStep(w, 3);
    Chunk4(w);
  }

  lemma ShiftedChunk5(w: bv32) ensures (Shifted(w, 5) & 0x3F) << 30 == w & 0xC000_0000 {
    ShiftedStep(w, 1);
    ShiftedStep(w, 2);
    ShiftedStep(w, 3);
    ShiftedStep(w, 4);
    Chunk5(w);
  }

  /** Decoding the six characters written for a word gives the word back,
      the sign-extended bits of the last character included. */
  lemma WordRoundTrip(w: bv32)
    ensures Assemble(EncodeWord(w, 6), 0, 6) == w
  {
    var cs := EncodeWord(w, 6);
    forall i | 0 <= i < 6 ensures DigitValue(cs[i]) == Shifted(w, i) & 0x3F {
      DigitValueOf(Shifted(w, i));
    }
    Chunk0(w);
    ShiftedChunk1(w);
    ShiftedChunk2(w);
    ShiftedChunk3(w);
    ShiftedChunk4(w);
    ShiftedChunk5(w);
    AssembleChunks(w, cs);
  }

  /** The decoder's mask, shift and sign correction give back each byte of
      a packed word. */
  lemma UnpackPack0(v0: Byte, v1: Byte, v2: Byte, v3: Byte)
    ensures UnpackByte(Pack(v0, v1, v2, v3), 0) == v0
  {}

  lemma UnpackPack1(v0: Byte, v1: Byte, v2: Byte, v3: Byte)
    ensures UnpackByte(Pack(v0, v1, v2, v3), 1) == v1
  {}

  lemma UnpackPack2(v0: Byte, v1: Byte, v2: Byte, v3: Byte)
    ensures UnpackByte(Pack(v0, v1, v2, v3), 2) == v2
  {}

  lemma UnpackPack3(v0: Byte, v1: Byte, v2: Byte, v3: Byte)
    ensures UnpackByte(Pack(v0, v1, v2, v3), 3) == v3
  {}

  /** Unpacking a packed word gives the four bytes back. */
  lemma UnpackPack(v0: Byte, v1: Byte, v2: Byte, v3: Byte)
    ensures Unpack(Pack(v0, v1, v2, v3)) == [v0, v1, v2, v3]
  {
    UnpackPack0(v0, v1, v2, v3);
    UnpackPack1(v0, v1, v2, v3);
    UnpackPack2(v0, v1, v2, v3);
    UnpackPack3(v0, v1, v2, v3);
  }

  /** The last twelve characters of an encoding are those of the last block. */
  lemma EncodingLast(t: Bytes)
    requires |t| % 8 == 0 && |t| > 0
    ensures var e := Encoding(t);
      |e| >= 12 && e[..|e| - 12] == Encoding(t[..|t| - 8]) && e[|e| - 12..] == EncodeBlock(t[|t| - 8..])
  {
    var e0 := Encoding(t[..|t| - 8]);
    var eb := EncodeBlock(t[|t| - 8..]);
    assert Encoding(t) == e0 + eb;
    assert (e0 + eb)[..|e0|] == e0;
    assert (e0 + eb)[|e0|..] == eb;
  }

  /** Decoding an encoded block gives the block back. */
  lemma BlockRoundTrip(b: Bytes)
    requires |b| == 8
    ensures DecodeBlock(EncodeBlock(b)) == b
  {
    var right := Pack(b[4], b[5], b[6], b[7]);
    var left := Pack(b[0], b[1], b[2], b[3]);
    var e := EncodeBlock(b);
    AssembleAppend(EncodeWord(right, 6), EncodeWord(left, 6));
    WordRoundTrip(right);
    WordRoundTrip(left);
    UnpackPack(b[4], b[5], b[6], b[7]);
    UnpackPack(b[0], b[1], b[2], b[3]);
    assert [b[0], b[1], b[2], b[3]] + [b[4], b[5], b[6], b[7]] == b;
  }

  /** b64ToByte inverts byteToB64 on whole blocks: the pairing blowfishECB
      relies on between its encrypting and decrypting directions. */
  lemma {:induction false} DecodingEncoding(t: Bytes)
    requires |t| % 8 == 0
    ensures |Encoding(t)| % 12 == 0
    ensures Decoding(Encoding(t)) == t
    decreases |t|
  {
    EncodingLength(t);
    if |t| > 0 {
      var t0 := t[..|t| - 8];
      var b := t[|t| - 8..];
      DecodingEncoding(t0);
      EncodingLength(t0);
      EncodingLast(t);
      BlockRoundTrip(b);
      SplitJoin(t, |t| - 8);
    }
  }
}
