/** FiSH / mircryption message encryption for IRC, as the core's Cipher class
    does it: key-mode prefixes, the wire headers of encrypted messages and
    topics, NUL padding around Blowfish, and the key format of the
    Diffie-Hellman key exchange. Blowfish, standard base64, SHA-256 and
    Diffie-Hellman are foreign library calls; they are the parameters
    bundled in `Primitives`. */
module Fish {
  import opened ByteArrays
  import FishBase64

  // ---------------------------------------------------------------------
  // Protocol literals (bytes, with their text)

  const CbcHeader: Bytes := [0x2B, 0x4F, 0x4B, 0x20, 0x2A]           // "+OK *"
  const McpsCbcHeader: Bytes := [0x6D, 0x63, 0x70, 0x73, 0x20, 0x2A] // "mcps *"
  const EcbHeader: Bytes := [0x2B, 0x4F, 0x4B, 0x20]                 // "+OK "
  const McpsEcbHeader: Bytes := [0x6D, 0x63, 0x70, 0x73, 0x20]       // "mcps "
  const ErrorNonCbc: Bytes :=                                        // "ERROR_NONCBC: "
    [0x45, 0x52, 0x52, 0x4F, 0x52, 0x5F, 0x4E, 0x4F, 0x4E, 0x43, 0x42, 0x43, 0x3A, 0x20]
  const ErrorNonEcb: Bytes :=                                        // "ERROR_NONECB: "
    [0x45, 0x52, 0x52, 0x4F, 0x52, 0x5F, 0x4E, 0x4F, 0x4E, 0x45, 0x43, 0x42, 0x3A, 0x20]
  const Trailer: Bytes := [0x20, 0x0A]                               // ' ' then '\n'
  const PlainMarker: Bytes := [0x2B, 0x70, 0x20]                     // "+p "
  const MircTopicHeader: Bytes := [0xC2, 0xAB, 0x6D, 0xC2, 0xAB]     // "«m«" in UTF-8
  const TopicMarker: Bytes := [0x40, 0x40]                           // "@@"
  const EcbPrefix: Bytes := [0x65, 0x63, 0x62, 0x3A]                 // "ecb:"
  const CbcPrefix: Bytes := [0x63, 0x62, 0x63, 0x3A]                 // "cbc:"
  const CbcSuffix: Bytes := [0x20, 0x43, 0x42, 0x43]                 // " CBC"
  const PadChar: Byte := 0x3D                                        // '='
  const KeyExchangeTail: Byte := 0x41                                // 'A'
  const ActionByte: Byte := 0x01                                     // CTCP marker

  /** The length of an exchanged public key in base64, plus its 'A'. */
  const KeyExchangeLength: nat := 181

  // ---------------------------------------------------------------------
  // Foreign primitives

  datatype BlockMode = CBC | ECB

  /** A Diffie-Hellman private key of the library: its public value `y` as
      bytes, and the secret part the library keeps. */
  datatype DhKey = DhKey(y: Bytes, secret: nat)

  /** The library calls the cipher makes. `blowfish(type, mode, encode,
      key, data)` is the output of one cipher run, None when the library
      reports failure; CBC runs use the fixed IV "0". */
  datatype Primitives = Primitives(
    blowfish: (string, BlockMode, bool, Bytes, Bytes) -> Option<Bytes>,
    toBase64: Bytes -> Bytes,
    fromBase64: Bytes -> Bytes,
    sha256: Bytes -> Bytes,
    publicKeyValid: Bytes -> bool,
    deriveKey: (DhKey, Bytes) -> Bytes)

  // ---------------------------------------------------------------------
  // Key modes (setKey)

  /** `key.mid(0, 4).toLower() == prefix`. */
  predicate HasModePrefix(key: Bytes, prefix: Bytes) {
    ToLower(Mid(key, 0, 4)) == prefix
  }

  /** The key setKey stores for a non-empty key: unchanged when it names its
      mode, otherwise marked as CBC, the default. */
  function NormalizedKey(key: Bytes): Bytes {
    if HasModePrefix(key, EcbPrefix) || HasModePrefix(key, CbcPrefix) then key else CbcPrefix + key
  }

  /** The mode prefixes are four-byte prefixes, compared without case. */
  lemma ModePrefixIsCaseInsensitivePrefix(key: Bytes, prefix: Bytes)
    requires prefix == EcbPrefix || prefix == CbcPrefix
    ensures HasModePrefix(key, prefix) <==> |key| >= 4 && ToLower(key[..4]) == prefix
  {
    if |key| >= 4 {
      assert Mid(key, 0, 4) == key[..4];
    } else {
      assert |ToLower(Mid(key, 0, 4))| < 4;
    }
  }

  /** Every stored key names its mode. */
  lemma NormalizedKeyNamesMode(key: Bytes)
    ensures HasModePrefix(NormalizedKey(key), EcbPrefix) || HasModePrefix(NormalizedKey(key), CbcPrefix)
  {
    if !(HasModePrefix(key, EcbPrefix) || HasModePrefix(key, CbcPrefix)) {
      var k := CbcPrefix + key;
      assert Mid(k, 0, 4) == CbcPrefix;
      assert ToLower(CbcPrefix) == CbcPrefix;
    }
  }

  /** Setting the stored key again stores the same key in the same mode. */
  lemma NormalizedKeyIdempotent(key: Bytes)
    ensures NormalizedKey(NormalizedKey(key)) == NormalizedKey(key)
    ensures HasModePrefix(NormalizedKey(key), EcbPrefix) == HasModePrefix(key, EcbPrefix)
  {
    NormalizedKeyNamesMode(key);
    if !(HasModePrefix(key, EcbPrefix) || HasModePrefix(key, CbcPrefix)) {
      var k := CbcPrefix + key;
      assert Mid(k, 0, 4) == CbcPrefix;
      assert ToLower(CbcPrefix) == CbcPrefix;
    }
  }

  // ---------------------------------------------------------------------
  // Padding and the two Blowfish helpers

  /** A buffer after `while (temp.length() % 8 != 0) temp.append('\0')`. */
  function Padded(s: Bytes): Bytes {
    s + Nuls((8 - |s| % 8) % 8)
  }

  /** Padding gives the shortest extension by NUL bytes to a multiple of 8. */
  lemma PaddedIsShortestNulExtension(s: Bytes)
    ensures |Padded(s)| % 8 == 0 && |s| <= |Padded(s)| < |s| + 8
    ensures Padded(s)[..|s|] == s
    ensures forall i :: |s| <= i < |Padded(s)| ==> Padded(s)[i] == 0
    ensures |s| % 8 == 0 ==> Padded(s) == s
  {
    assert Padded(s)[..|s|] == s;
  }

  /** The result of blowfishCBC. Encoding pads, puts the random IV `iv` in
      front and returns the cipher output in standard base64; decoding reads
      standard base64, pads, and drops the first eight bytes of the output
      (`remove(0, 8)`). A failed cipher run gives the input back. */
  function CbcOutcome(p: Primitives, cipherType: string, key: Bytes, text: Bytes, encode: bool, iv: Bytes): Bytes {
    var input := if encode then iv + Padded(text) else Padded(p.fromBase64(text));
    match p.blowfish(cipherType, CBC, encode, Mid(key, 4), input)
    case None => text
    case Some(out) => if encode then p.toBase64(out) else Mid(out, 8)
  }

  /** The result of blowfishECB. Decoding refuses text whose length is not
      a multiple of 12 and reads the rest with the FiSH base64 codec;
      encoding refuses cipher output whose length is not a multiple of 8
      and writes the rest with the codec. */
  function EcbOutcome(p: Primitives, cipherType: string, key: Bytes, text: Bytes, encode: bool): Bytes {
    if !encode && |text| % 12 != 0 then text
    else
      var input := if encode then Padded(text) else Padded(FishBase64.Decoding(text));
      match p.blowfish(cipherType, ECB, encode, Mid(key, 4), input)
      case None => text
      case Some(out) =>
        if !encode then out
        else if |out| % 8 != 0 then text
        else FishBase64.Encoding(out)
  }

  /** ECB decoding gives malformed text back untouched. */
  lemma EcbRejectsMalformed(p: Primitives, cipherType: string, key: Bytes, text: Bytes)
    requires |text| % 12 != 0
    ensures EcbOutcome(p, cipherType, key, text, false) == text
  {}

  /** The ECB pair: when Blowfish decodes what it encoded, decoding the
      encoding of a text gives the text padded with NULs. */
  lemma EcbRoundTrip(p: Primitives, cipherType: string, key: Bytes, text: Bytes, out: Bytes)
    requires p.blowfish(cipherType, ECB, true, Mid(key, 4), Padded(text)) == Some(out)
    requires |out| % 8 == 0
    requires p.blowfish(cipherType, ECB, false, Mid(key, 4), out) == Some(Padded(text))
    ensures EcbOutcome(p, cipherType, key, text, true) == FishBase64.Encoding(out)
    ensures EcbOutcome(p, cipherType, key, EcbOutcome(p, cipherType, key, text, true), false) == Padded(text)
  {
    var e := FishBase64.Encoding(out);
    FishBase64.DecodingEncoding(out);
    PaddedIsShortestNulExtension(out);
    assert Padded(FishBase64.Decoding(e)) == out;
  }

  /** The CBC pair: when Blowfish decodes what it encoded and base64 reads
      back what it wrote, decoding the encoding gives the padded text. */
  lemma CbcRoundTrip(p: Primitives, cipherType: string, key: Bytes, text: Bytes, iv: Bytes, out: Bytes)
    requires |iv| == 8
    requires p.blowfish(cipherType, CBC, true, Mid(key, 4), iv + Padded(text)) == Some(out)
    requires p.fromBase64(p.toBase64(out)) == out && |out| % 8 == 0
    requires p.blowfish(cipherType, CBC, false, Mid(key, 4), out) == Some(iv + Padded(text))
    ensures CbcOutcome(p, cipherType, key, CbcOutcome(p, cipherType, key, text, true, iv), false, []) == Padded(text)
  {
    PaddedIsShortestNulExtension(out);
    PaddedIsShortestNulExtension(text);
    var plain := iv + Padded(text);
    if |Padded(text)| == 0 {
      assert Mid(plain, 8) == [];
    } else {
      assert Mid(plain, 8) == plain[8..];
      assert plain[8..] == Padded(text);
    }
  }

  // ---------------------------------------------------------------------
  // Message decryption (decrypt)

  /** A recognised message header: its mode and its length. */
  datatype Header = Header(isCbc: bool, offset: nat)

  /** The header tests of decrypt, CBC headers first. */
  function HeaderOf(text: Bytes): Option<Header> {
    if Mid(text, 0, 5) == CbcHeader then Some(Header(true, 5))
    else if Mid(text, 0, 6) == McpsCbcHeader then Some(Header(true, 6))
    else if Mid(text, 0, 4) == EcbHeader then Some(Header(false, 4))
    else if Mid(text, 0, 5) == McpsEcbHeader then Some(Header(false, 5))
    else None
  }

  /** Each header is recognised exactly when the text starts with it, a
      bare ECB header only when the CBC header that extends it is absent,
      and a text with neither ECB header has no header at all. */
  lemma HeaderOfPrefixes(text: Bytes)
    ensures HeaderOf(text) == Some(Header(true, 5)) <==> StartsWith(text, CbcHeader)
    ensures HeaderOf(text) == Some(Header(true, 6)) <==> StartsWith(text, McpsCbcHeader)
    ensures HeaderOf(text) == Some(Header(false, 4)) <==> StartsWith(text, EcbHeader) && !StartsWith(text, CbcHeader)
    ensures HeaderOf(text) == Some(Header(false, 5))
      <==> StartsWith(text, McpsEcbHeader) && !StartsWith(text, McpsCbcHeader)
    ensures HeaderOf(text).None? <==> !StartsWith(text, EcbHeader) && !StartsWith(text, McpsEcbHeader)
  {
    MidIsPrefixTest(text, CbcHeader);
    MidIsPrefixTest(text, McpsCbcHeader);
    MidIsPrefixTest(text, EcbHeader);
    MidIsPrefixTest(text, McpsEcbHeader);
    if StartsWith(text, CbcHeader) {
      assert text[..4] == text[..5][..4];
    }
    if StartsWith(text, McpsCbcHeader) {
      assert text[..5] == text[..6][..5];
    }
    if StartsWith(text, EcbHeader) {
      assert text[0] == text[..4][0] == 0x2B;
    }
    if StartsWith(text, McpsEcbHeader) {
      assert text[0] == text[..5][0] == 0x6D;
    }
  }

  /** The warning put before a message whose mode differs from the key's. */
  function ErrorPrefix(cbcMode: bool, textIsCbc: bool): Bytes {
    if cbcMode && !textIsCbc then ErrorNonCbc
    else if !cbcMode && textIsCbc then ErrorNonEcb
    else []
  }

  /** The decryption of a message body, by the mode its header names. */
  function PayloadPlaintext(p: Primitives, cipherType: string, key: Bytes, h: Header, payload: Bytes): Bytes {
    if h.isCbc then CbcOutcome(p, cipherType, key, payload, false, [])
    else EcbOutcome(p, cipherType, key, payload, false)
  }

  /** The result of decrypt for a key in mode `cbcMode`. A decryption that
      gives its input back counts as failed. A plaintext starting with byte
      0x01 gets no warning: the source assigns "\x0" to the prefix, which
      as a C string is empty. */
  function DecryptOutcome(p: Primitives, cipherType: string, key: Bytes, cbcMode: bool, text: Bytes): Bytes {
    match HeaderOf(text)
    case None => text
    case Some(h) =>
      var payload := Mid(text, h.offset);
      var plain := PayloadPlaintext(p, cipherType, key, h, payload);
      if plain == payload then payload + Trailer
      else
        var pfx := if |plain| > 0 && plain[0] == ActionByte then [] else ErrorPrefix(cbcMode, h.isCbc);
        pfx + plain + Trailer
  }

  /** A text without a known header is not touched. */
  lemma DecryptWithoutHeader(p: Primitives, cipherType: string, key: Bytes, cbcMode: bool, text: Bytes)
    requires !StartsWith(text, EcbHeader) && !StartsWith(text, McpsEcbHeader)
    ensures DecryptOutcome(p, cipherType, key, cbcMode, text) == text
  {
    HeaderOfPrefixes(text);
  }

  /** Past header detection every result ends in " \n". */
  lemma DecryptEndsWithTrailer(p: Primitives, cipherType: string, key: Bytes, cbcMode: bool, text: Bytes)
    requires StartsWith(text, EcbHeader) || StartsWith(text, McpsEcbHeader)
    ensures EndsWith(DecryptOutcome(p, cipherType, key, cbcMode, text), Trailer)
  {
    HeaderOfPrefixes(text);
    var r := DecryptOutcome(p, cipherType, key, cbcMode, text);
    assert r[|r| - 2..] == Trailer;
  }

  /** The mode warning: a successfully decrypted message starts with
      "ERROR_NONCBC: " exactly when a CBC key met an ECB header, and with
      "ERROR_NONECB: " exactly when an ECB key met a CBC header, unless
      the plaintext starts with byte 0x01. */
  lemma DecryptWarnsOnModeMismatch(p: Primitives, cipherType: string, key: Bytes, cbcMode: bool, text: Bytes, h: Header, plain: Bytes)
    requires HeaderOf(text) == Some(h)
    requires plain == PayloadPlaintext(p, cipherType, key, h, Mid(text, h.offset))
    requires plain != Mid(text, h.offset)
    ensures var r := DecryptOutcome(p, cipherType, key, cbcMode, text);
      if |plain| > 0 && plain[0] == ActionByte then r == plain + Trailer
      else if cbcMode != h.isCbc then r == (if cbcMode then ErrorNonCbc else ErrorNonEcb) + plain + Trailer
      else r == plain + Trailer
  {
    var pfx := if |plain| > 0 && plain[0] == ActionByte then [] else ErrorPrefix(cbcMode, h.isCbc);
    assert DecryptOutcome(p, cipherType, key, cbcMode, text) == pfx + plain + Trailer;
    if pfx == [] {
      assert pfx + plain == plain;
    }
  }

  // ---------------------------------------------------------------------
  // Topics (decryptTopic)

  /** The result of decryptTopic: a FiSH topic after "+OK ", or a
      mircryption topic between "«m«" and its last five bytes; "@@" in
      front of the plaintext is dropped. In CBC mode the first byte of the
      body (the '*') is skipped before decoding, so a failed decoding is
      not recognised and gives the body without that byte. */
  function TopicOutcome(p: Primitives, cipherType: string, key: Bytes, cbcMode: bool, text: Bytes): Bytes {
    var body :=
      if Mid(text, 0, 4) == EcbHeader then Some(Mid(text, 4))
      else if Left(text, 5) == MircTopicHeader then Some(Mid(text, 5, |text| - 10))
      else None;
    match body
    case None => text
    case Some(c) =>
      var plain :=
        if cbcMode then CbcOutcome(p, cipherType, key, Mid(c, 1), false, [])
        else EcbOutcome(p, cipherType, key, c, false);
      if plain == c then c
      else if Mid(plain, 0, 2) == TopicMarker then Mid(plain, 2)
      else plain
  }

  /** A topic without either header is not touched. */
  lemma TopicWithoutHeader(p: Primitives, cipherType: string, key: Bytes, cbcMode: bool, text: Bytes)
    requires !StartsWith(text, EcbHeader) && !StartsWith(text, MircTopicHeader)
    ensures TopicOutcome(p, cipherType, key, cbcMode, text) == text
  {
    MidIsPrefixTest(text, EcbHeader);
    if |text| >= 5 {
      assert Left(text, 5) == text[..5];
    }
  }

  /** In CBC mode a topic whose decryption fails comes back as its body
      without the first byte, "@@" stripped, instead of as the body. */
  lemma TopicCbcFailureDropsFirstByte(p: Primitives, cipherType: string, key: Bytes, text: Bytes)
    requires StartsWith(text, EcbHeader) && |text| > 5
    requires p.blowfish(cipherType, CBC, false, Mid(key, 4), Padded(p.fromBase64(text[5..]))).None?
    ensures var r := TopicOutcome(p, cipherType, key, true, text);
      if Mid(text[5..], 0, 2) == TopicMarker then r == Mid(text[5..], 2) else r == text[5..]
  {
    MidIsPrefixTest(text, EcbHeader);
    var c := text[4..];
    assert Mid(text, 4) == c;
    assert Mid(c, 1) == text[5..];
    assert |text[5..]| < |c|;
  }

  // ---------------------------------------------------------------------
  // Message encryption (encrypt)

  /** encrypt: whether it succeeded, and the new text. "+p " marks text
      to send in the clear; a cipher run that gives its input back counts
      as failed and leaves the text alone. */
  function EncryptOutcome(p: Primitives, cipherType: string, key: Bytes, cbcMode: bool, text: Bytes, iv: Bytes): (bool, Bytes) {
    if Left(text, 3) == PlainMarker then (true, Mid(text, 3))
    else if cbcMode then
      var temp := CbcOutcome(p, cipherType, key, text, true, iv);
      if temp == text then (false, text) else (true, CbcHeader + temp)
    else
      var temp := EcbOutcome(p, cipherType, key, text, true);
      if temp == text then (false, text) else (true, EcbHeader + temp)
  }

  /** encrypt's three outcomes: clear text loses its marker, a failure
      changes nothing, a success is the payload behind the header of the
      key's mode. */
  lemma EncryptOutcomes(p: Primitives, cipherType: string, key: Bytes, cbcMode: bool, text: Bytes, iv: Bytes)
    ensures var (ok, r) := EncryptOutcome(p, cipherType, key, cbcMode, text, iv);
      (StartsWith(text, PlainMarker) ==> ok && r == text[3..])
      && (!ok ==> r == text)
      && (ok && !StartsWith(text, PlainMarker) ==>
            (cbcMode ==> r == CbcHeader + CbcOutcome(p, cipherType, key, text, true, iv))
            && (!cbcMode ==> r == EcbHeader + EcbOutcome(p, cipherType, key, text, true)))
  {
    if |text| >= 3 {
      assert Left(text, 3) == text[..3];
      if StartsWith(text, PlainMarker) && |text| == 3 {
        assert Mid(text, 3) == text[3..];
      }
    } else {
      assert Left(text, 3) == text;
    }
  }

  /** No character of the FiSH alphabet is '*', so an ECB message is never
      read back as CBC. */
  lemma EncodingAvoidsStar(t: Bytes)
    requires |t| % 8 == 0
    ensures forall i :: 0 <= i < |FishBase64.Encoding(t)| ==> FishBase64.Encoding(t)[i] != 0x2A
  {
    FishBase64.EncodingInAlphabet(t);
    forall i | 0 <= i < |FishBase64.Encoding(t)| ensures FishBase64.Encoding(t)[i] != 0x2A {
      var d: bv6 :| FishBase64.Digit(d) == FishBase64.Encoding(t)[i];
    }
  }

  /** An ECB message decrypts to what was encrypted, padded with NULs and
      followed by " \n", when Blowfish decodes what it encoded. */
  lemma EcbMessageRoundTrip(p: Primitives, cipherType: string, key: Bytes, text: Bytes, iv: Bytes, out: Bytes)
    requires !StartsWith(text, PlainMarker)
    requires p.blowfish(cipherType, ECB, true, Mid(key, 4), Padded(text)) == Some(out)
    requires |out| % 8 == 0
    requires p.blowfish(cipherType, ECB, false, Mid(key, 4), out) == Some(Padded(text))
    requires EncryptOutcome(p, cipherType, key, false, text, iv).0
    ensures DecryptOutcome(p, cipherType, key, false, EncryptOutcome(p, cipherType, key, false, text, iv).1)
      == Padded(text) + Trailer
  {
    EncryptOutcomes(p, cipherType, key, false, text, iv);
    EcbRoundTrip(p, cipherType, key, text, out);
    var e := FishBase64.Encoding(out);
    var wire := EcbHeader + e;
    assert EncryptOutcome(p, cipherType, key, false, text, iv).1 == wire;
    FishBase64.EncodingLength(out);
    EncodingAvoidsStar(out);
    assert StartsWith(wire, EcbHeader);
    if |e| > 0 {
      assert wire[4] == e[0] != 0x2A;
      assert wire[..5][4] != CbcHeader[4];
    }
    HeaderOfPrefixes(wire);
    assert Mid(wire, 4) == e;
    assert HeaderOf(wire) == Some(Header(false, 4));
    assert PayloadPlaintext(p, cipherType, key, Header(false, 4), e) == Padded(text);
  }

  /** A CBC message decrypts to what was encrypted, padded with NULs and
      followed by " \n", when Blowfish and base64 read back what they
      wrote. */
  lemma CbcMessageRoundTrip(p: Primitives, cipherType: string, key: Bytes, text: Bytes, iv: Bytes, out: Bytes)
    requires !StartsWith(text, PlainMarker) && |iv| == 8
    requires p.blowfish(cipherType, CBC, true, Mid(key, 4), iv + Padded(text)) == Some(out)
    requires p.fromBase64(p.toBase64(out)) == out && |out| % 8 == 0
    requires p.blowfish(cipherType, CBC, false, Mid(key, 4), out) == Some(iv + Padded(text))
    requires EncryptOutcome(p, cipherType, key, true, text, iv).0
    ensures DecryptOutcome(p, cipherType, key, true, EncryptOutcome(p, cipherType, key, true, text, iv).1)
      == Padded(text) + Trailer
  {
    EncryptOutcomes(p, cipherType, key, true, text, iv);
    CbcRoundTrip(p, cipherType, key, text, iv, out);
    var e := p.toBase64(out);
    var wire := CbcHeader + e;
    assert EncryptOutcome(p, cipherType, key, true, text, iv).1 == wire;
    assert StartsWith(wire, CbcHeader);
    HeaderOfPrefixes(wire);
    assert Mid(wire, 5) == e;
  }

  // ---------------------------------------------------------------------
  // Key exchange (the key formats of parseInitKeyX and parseFinishKeyX)

  /** The text after `while (key.endsWith('=')) key.chop(1)`. */
  function TrimPadding(s: Bytes): (r: Bytes)
    decreases |s|
  {
    if |s| > 0 && s[|s| - 1] == PadChar then TrimPadding(s[..|s| - 1]) else s
  }

  /** Trimming removes the trailing '=' characters and nothing else. */
  lemma {:induction false} TrimPaddingSpec(s: Bytes)
    ensures |TrimPadding(s)| <= |s| && TrimPadding(s) == s[..|TrimPadding(s)|]
    ensures forall i :: |TrimPadding(s)| <= i < |s| ==> s[i] == PadChar
    ensures !EndsWith(TrimPadding(s), [PadChar])
    decreases |s|
  {
    if |s| > 0 && s[|s| - 1] == PadChar {
      var s' := s[..|s| - 1];
      TrimPaddingSpec(s');
      var r := TrimPadding(s');
      assert r == s'[..|r|];
      assert s'[..|r|] == s[..|r|];
    } else if |s| > 0 {
      assert s[|s| - 1..] != [PadChar];
    }
  }

  /** The received half of a key exchange: whether it ends in " CBC", and
      the key without that suffix. */
  function SplitCbcSuffix(key: Bytes): (bool, Bytes) {
    if EndsWith(key, CbcSuffix) then (true, key[..|key| - 4]) else (false, key)
  }

  /** The key both sides store: the base64 SHA-256 of the shared secret
      without its trailing '=', marked with the agreed mode. */
  function ExchangedKey(p: Primitives, shared: Bytes, isCbc: bool): Bytes {
    (if isCbc then CbcPrefix else EcbPrefix) + TrimPadding(p.toBase64(p.sha256(shared)))
  }

  /** The exchanged key is stored as it is, in CBC mode exactly when the
      peer asked for it, and never ends in '='. */
  lemma ExchangedKeyFormat(p: Primitives, shared: Bytes, isCbc: bool)
    ensures var k := ExchangedKey(p, shared, isCbc);
      NormalizedKey(k) == k && !HasModePrefix(k, EcbPrefix) == isCbc
      && StartsWith(k, if isCbc then CbcPrefix else EcbPrefix)
      && (|k| > 4 ==> k[|k| - 1] != PadChar)
  {
    var k := ExchangedKey(p, shared, isCbc);
    var prefix := if isCbc then CbcPrefix else EcbPrefix;
    var body := TrimPadding(p.toBase64(p.sha256(shared)));
    TrimPaddingSpec(p.toBase64(p.sha256(shared)));
    assert k[..4] == prefix;
    assert Mid(k, 0, 4) == prefix;
    assert ToLower(prefix) == prefix;
    if |k| > 4 {
      assert k[|k| - 1] == body[|body| - 1];
      assert body[|body| - 1..] == [body[|body| - 1]];
    }
  }

  /** The public key the way the exchange sends it: a leading NUL byte of a
      key longer than 135 bytes is removed. */
  function TrimLeadingZero(publicKey: Bytes): Bytes {
    if |publicKey| > 135 && publicKey[0] == 0 then publicKey[1..] else publicKey
  }

  /** The reply text of a key exchange: the public key in base64 and 'A'. */
  function KeyReply(p: Primitives, k: DhKey): Bytes {
    p.toBase64(TrimLeadingZero(k.y)) + [KeyExchangeTail]
  }

  /** Whether a received key passes the checks of both key-exchange halves. */
  predicate AcceptableRemoteKey(p: Primitives, key: Bytes) {
    var (_, body) := SplitCbcSuffix(key);
    |body| == KeyExchangeLength && p.publicKeyValid(p.fromBase64(Left(body, 180)))
  }

  /** A received key of any length but 181 (after " CBC") is refused. */
  lemma RemoteKeyLength(p: Primitives, key: Bytes)
    ensures AcceptableRemoteKey(p, key) ==>
      |key| == KeyExchangeLength || (|key| == KeyExchangeLength + 4 && EndsWith(key, CbcSuffix))
  {}

  // ---------------------------------------------------------------------
  // The cipher object

  class Cipher {
    /** m_key: the key with its mode prefix. */
    var key: Bytes
    /** m_cbc: the mode of the key; the default constructor leaves it unset. */
    var cbc: bool
    /** m_type: the library's name of the cipher. */
    var cipherType: string
    var peerWantsCbc: bool
    var wantsCbc: bool
    /** m_tempKey: our half of a key exchange we started. */
    var tempKey: Option<DhKey>

    /** Cipher(): no key, type "blowfish"; the mode flags are not set. */
    constructor()
      ensures key == [] && cipherType == "blowfish" && tempKey == None
    {
      key := [];
      cipherType := "blowfish";
      tempKey := None;
    }

    /** Cipher(key, type). */
    constructor WithKey(k: Bytes, t: string)
      ensures |k| == 0 ==> key == []
      ensures |k| > 0 ==> key == NormalizedKey(k) && cbc == !HasModePrefix(k, EcbPrefix)
      ensures cipherType == t && tempKey == None
    {
      key := [];
      cipherType := "";
      tempKey := None;
      new;
      var _ := SetKey(k);
      var _ := SetType(t);
    }

    /** setKey: an empty key clears the key and fails; any other key is
        stored with its mode prefix, CBC unless it starts with "ecb:". */
    method SetKey(k: Bytes) returns (success: bool)
      modifies this
      ensures success == (|k| > 0)
      ensures |k| == 0 ==> key == [] && cbc == old(cbc)
      ensures |k| > 0 ==> key == NormalizedKey(k) && cbc == !HasModePrefix(k, EcbPrefix)
      ensures cipherType == old(cipherType) && tempKey == old(tempKey)
      ensures peerWantsCbc == old(peerWantsCbc) && wantsCbc == old(wantsCbc)
    {
      if |k| == 0 {
        key := [];
        return false;
      }
      key := k;
      if ToLower(Mid(k, 0, 4)) == EcbPrefix {
        cbc := false;
      } else if ToLower(Mid(k, 0, 4)) == CbcPrefix {
        cbc := true;
      } else {
        cbc := true;
        key := CbcPrefix + key;
      }
      return true;
    }

    /** setType: any type name is accepted. */
    method SetType(t: string) returns (success: bool)
      modifies this
      ensures success && cipherType == t
      ensures key == old(key) && cbc == old(cbc) && tempKey == old(tempKey)
      ensures peerWantsCbc == old(peerWantsCbc) && wantsCbc == old(wantsCbc)
    {
      cipherType := t;
      return true;
    }

    /** blowfishCBC */
    method BlowfishCbc(p: Primitives, text: Bytes, encode: bool, iv: Bytes) returns (r: Bytes)
      ensures r == CbcOutcome(p, cipherType, key, text, encode, iv)
    {
      var temp := text;
      if encode {
        temp := PadWithNuls(temp);
        temp := iv + temp;
      } else {
        temp := p.fromBase64(temp);
        temp := PadWithNuls(temp);
      }
      var out := p.blowfish(cipherType, CBC, encode, Mid(key, 4), temp);
      if out.None? {
        return text;
      }
      r := out.value;
      if encode {
        r := p.toBase64(r);
      } else {
        r := Mid(r, 8);
      }
    }

    /** blowfishECB */
    method BlowfishEcb(p: Primitives, text: Bytes, encode: bool) returns (r: Bytes)
      ensures r == EcbOutcome(p, cipherType, key, text, encode)
    {
      var temp := text;
      if encode {
        temp := PadWithNuls(temp);
      } else {
        if |temp| % 12 != 0 {
          return text;
        }
        temp := FishBase64.B64ToByte(temp);
        temp := PadWithNuls(temp);
      }
      var out := p.blowfish(cipherType, ECB, encode, Mid(key, 4), temp);
      if out.None? {
        return text;
      }
      r := out.value;
      if encode {
        if |r| % 8 != 0 {
          return text;
        }
        r := FishBase64.ByteToB64(r);
      }
    }

    /** decrypt */
    method Decrypt(p: Primitives, text: Bytes) returns (r: Bytes)
      ensures r == DecryptOutcome(p, cipherType, key, cbc, text)
    {
      var pfx: Bytes := [];
      var isCbc := false;
      var isEcb := false;
      var offset := 0;
      if Mid(text, 0, 5) == CbcHeader {
        isCbc := true;
        offset := 5;
      } else if Mid(text, 0, 6) == McpsCbcHeader {
        isCbc := true;
        offset := 6;
      } else if Mid(text, 0, 4) == EcbHeader {
        isEcb := true;
        offset := 4;
      } else if Mid(text, 0, 5) == McpsEcbHeader {
        isEcb := true;
        offset := 5;
      } else {
        return text;
      }
      if cbc && isEcb {
        pfx := ErrorNonCbc;
      } else if !cbc && isCbc {
        pfx := ErrorNonEcb;
      }
      var payload := Mid(text, offset);
      var temp;
      if isCbc {
        temp := BlowfishCbc(p, payload, false, []);
        if temp == payload {
          return payload + Trailer;
        }
      } else {
        temp := BlowfishEcb(p, payload, false);
        if temp == payload {
          return payload + Trailer;
        }
      }
      if |temp| > 0 && temp[0] == ActionByte {
        pfx := [];
      }
      r := pfx + temp + Trailer;
    }

    /** decryptTopic */
    method DecryptTopic(p: Primitives, text: Bytes) returns (r: Bytes)
      ensures r == TopicOutcome(p, cipherType, key, cbc, text)
    {
      var c := text;
      if Mid(c, 0, 4) == EcbHeader {
        c := Mid(c, 4);
      } else if Left(c, 5) == MircTopicHeader {
        c := Mid(c, 5, |c| - 10);
      } else {
        return c;
      }
      var temp;
      if cbc {
        temp := BlowfishCbc(p, Mid(c, 1), false, []);
      } else {
        temp := BlowfishEcb(p, c, false);
      }
      if temp == c {
        return c;
      }
      r := temp;
      if Mid(r, 0, 2) == TopicMarker {
        r := Mid(r, 2);
      }
    }

    /** encrypt: `success` is the return value and `result` the new value of
        the by-reference text. `iv` is the random IV of a CBC run. */
    method Encrypt(p: Primitives, text: Bytes, iv: Bytes) returns (success: bool, result: Bytes)
      ensures (success, result) == EncryptOutcome(p, cipherType, key, cbc, text, iv)
    {
      result := text;
      if Left(result, 3) == PlainMarker {
        result := Mid(result, 3);
      } else if cbc {
        var temp := BlowfishCbc(p, result, true, iv);
        if temp == result {
          return false, result;
        }
        result := CbcHeader + temp;
      } else {
        var temp := BlowfishEcb(p, result, true);
        if temp == result {
          return false, result;
        }
        result := EcbHeader + temp;
      }
      return true, result;
    }

    /** initKeyExchange: `generated` is the library's new key, None when it
        could not make one. */
    method InitKeyExchange(p: Primitives, generated: Option<DhKey>, wantCbc: bool) returns (reply: Bytes)
      modifies this
      ensures tempKey == generated && wantsCbc == wantCbc
      ensures reply == if generated.None? then [] else KeyReply(p, generated.value)
      ensures key == old(key) && cbc == old(cbc) && cipherType == old(cipherType)
      ensures peerWantsCbc == old(peerWantsCbc)
    {
      tempKey := generated;
      wantsCbc := wantCbc;
      if tempKey.None? {
        return [];
      }
      var publicKey := tempKey.value.y;
      if |publicKey| > 135 && publicKey[0] == 0 {
        publicKey := Mid(publicKey, 1);
      }
      reply := p.toBase64(publicKey) + [KeyExchangeTail];
    }

    /** parseInitKeyX: `generated` is the private key the library makes for
        our half, None when it could not make one. On success both sides'
        key is stored in the mode the peer asked for. */
    method ParseInitKeyX(p: Primitives, remote: Bytes, generated: Option<DhKey>) returns (reply: Bytes)
      modifies this
      ensures var (isCbc, body) := SplitCbcSuffix(remote);
        if !AcceptableRemoteKey(p, remote) || generated.None? then
          reply == [] && key == old(key) && cbc == old(cbc)
          && peerWantsCbc == old(peerWantsCbc) && wantsCbc == old(wantsCbc)
        else
          var shared := p.deriveKey(generated.value, p.fromBase64(Left(body, 180)));
          reply == KeyReply(p, generated.value)
          && key == ExchangedKey(p, shared, isCbc) && cbc == isCbc
          && peerWantsCbc == isCbc && wantsCbc == isCbc
      ensures cipherType == old(cipherType) && tempKey == old(tempKey)
    {
      var k := remote;
      var isCbc := false;
      if EndsWith(k, CbcSuffix) {
        isCbc := true;
        k := k[..|k| - 4];
      }
      if |k| != KeyExchangeLength {
        return [];
      }
      var remoteKey := p.fromBase64(Left(k, 180));
      if generated.None? {
        return [];
      }
      var publicKey := generated.value.y;
      if |publicKey| > 135 && publicKey[0] == 0 {
        publicKey := Mid(publicKey, 1);
      }
      if !p.publicKeyValid(remoteKey) {
        return [];
      }
      var sharedKey := p.deriveKey(generated.value, remoteKey);
      sharedKey := p.toBase64(p.sha256(sharedKey));
      sharedKey := ChopPadding(sharedKey);
      if isCbc {
        sharedKey := CbcPrefix + sharedKey;
      } else {
        sharedKey := EcbPrefix + sharedKey;
      }
      ExchangedKeyFormat(p, p.deriveKey(generated.value, remoteKey), isCbc);
      var success := SetKey(sharedKey);
      if !success {
        return [];
      }
      peerWantsCbc := isCbc;
      wantsCbc := isCbc;
      reply := p.toBase64(publicKey) + [KeyExchangeTail];
    }

    /** parseFinishKeyX: completes an exchange we started with
        initKeyExchange. */
    method ParseFinishKeyX(p: Primitives, remote: Bytes) returns (success: bool)
      modifies this
      ensures var (isCbc, body) := SplitCbcSuffix(remote);
        success == (AcceptableRemoteKey(p, remote) && old(tempKey).Some?)
        && (success ==>
              key == ExchangedKey(p, p.deriveKey(old(tempKey).value, p.fromBase64(Left(body, 180))), isCbc)
              && cbc == isCbc && peerWantsCbc == isCbc)
        && (!success ==> key == old(key) && cbc == old(cbc) && peerWantsCbc == old(peerWantsCbc))
      ensures cipherType == old(cipherType) && tempKey == old(tempKey) && wantsCbc == old(wantsCbc)
    {
      var peerCbc := false;
      var k := remote;
      if EndsWith(k, CbcSuffix) {
        peerCbc := true;
        k := k[..|k| - 4];
      }
      if |k| != KeyExchangeLength {
        return false;
      }
      var remoteKey := p.fromBase64(Left(k, 180));
      if !p.publicKeyValid(remoteKey) {
        return false;
      }
      if tempKey.None? {
        return false;
      }
      var sharedKey := p.deriveKey(tempKey.value, remoteKey);
      sharedKey := p.toBase64(p.sha256(sharedKey));
      sharedKey := ChopPadding(sharedKey);
      if peerCbc {
        sharedKey := CbcPrefix + sharedKey;
      } else {
        sharedKey := EcbPrefix + sharedKey;
      }
      ExchangedKeyFormat(p, p.deriveKey(tempKey.value, remoteKey), peerCbc);
      success := SetKey(sharedKey);
      peerWantsCbc := peerCbc;
    }
  }

  /** The NUL-padding loop of the Blowfish helpers. */
  method PadWithNuls(s: Bytes) returns (t: Bytes)
    ensures t == Padded(s)
  {
    t := s;
    ghost var n := (8 - |s| % 8) % 8;
    while |t| % 8 != 0
      invariant |s| <= |t| <= |s| + n && t == s + Nuls(|t| - |s|)
      decreases |s| + n - |t|
    {
      PaddingArithmetic(|s|, |t| - |s|);
      NulsSucc(|t| - |s|);
      AppendAssoc(s, Nuls(|t| - |s|), [0]);
      t := t + [0];
    }
    PaddingArithmetic(|s|, |t| - |s|);
  }

  /** Appending `j` bytes to `a` bytes reaches a multiple of 8 exactly when
      `j` is the padding length. */
  lemma PaddingArithmetic(a: nat, j: nat)
    requires j <= (8 - a % 8) % 8
    ensures (a + j) % 8 == 0 <==> j == (8 - a % 8) % 8
  {
    var q, r := a / 8, a % 8;
    assert a == 8 * q + r;
    if r != 0 {
      assert (8 - r) % 8 == 8 - r;
      assert a + j == 8 * q + (r + j);
      assert r + j < 8 ==> (a + j) % 8 == r + j;
      assert r + j == 8 ==> a + j == 8 * (q + 1);
    }
  }

  /** The '='-stripping loop of the key exchange. */
  method ChopPadding(s: Bytes) returns (t: Bytes)
    ensures t == TrimPadding(s)
  {
    t := s;
    while EndsWith(t, [PadChar])
      invariant TrimPadding(t) == TrimPadding(s)
      decreases |t|
    {
      assert t[|t| - 1..] == [PadChar];
      t := t[..|t| - 1];
    }
    if |t| > 0 {
      assert t[|t| - 1..] == [t[|t| - 1]];
    }
  }
}
