/** Byte arrays as the cipher code sees them (QByteArray): sequences of
    8-bit bytes, with the slicing helpers whose out-of-range behaviour the
    cipher relies on. Protocol literals are written as byte sequences with
    their text in a comment. */
module ByteArrays {

  datatype Option<T> = None | Some(value: T)

  /** One element of a byte array. */
  type Byte = bv8

  type Bytes = seq<Byte>

  predicate StartsWith(s: Bytes, prefix: Bytes) {
    |prefix| <= |s| && s[..|prefix|] == prefix
  }

  predicate EndsWith(s: Bytes, suffix: Bytes) {
    |suffix| <= |s| && s[|s| - |suffix|..] == suffix
  }

  /** QByteArray::mid(pos, len) for a non-negative position: empty when the
      position is at or past the end, and a negative length, or one that
      reaches past the end, means "to the end". */
  function Mid(s: Bytes, pos: nat, len: int := -1): (r: Bytes)
    ensures pos >= |s| ==> r == []
    ensures pos < |s| && (len < 0 || pos + len >= |s|) ==> r == s[pos..]
    ensures pos < |s| && 0 <= len && pos + len < |s| ==> r == s[pos..pos + len]
  {
    if pos >= |s| then []
    else if len < 0 || pos + len > |s| then s[pos..]
    else s[pos..pos + len]
  }

  /** QByteArray::left(len): the whole array when len reaches its size,
      nothing when len is negative. */
  function Left(s: Bytes, len: int): (r: Bytes)
    ensures |r| <= |s|
    ensures 0 <= len <= |s| ==> r == s[..len]
    ensures len >= |s| ==> r == s
  {
    if len >= |s| then s else if len < 0 then [] else s[..len]
  }

  /** Comparing mid(0, n) with an n-byte literal is a prefix test. */
  lemma MidIsPrefixTest(s: Bytes, p: Bytes)
    ensures Mid(s, 0, |p|) == p <==> StartsWith(s, p)
  {
    if |s| == 0 {
    } else if |p| < |s| {
      assert Mid(s, 0, |p|) == s[..|p|];
    } else {
      assert Mid(s, 0, |p|) == s;
      if s == p { assert s[..|p|] == s; }
    }
  }

  /** Latin-1 lower-casing of one byte, as QByteArray::toLower does it:
      A-Z and the accented capitals 0xC0-0xDE except 0xD7 move up by 32. */
  function LowerByte(c: Byte): (r: Byte)
    ensures 0x41 <= c <= 0x5A ==> r == c + 32
    ensures !(0x41 <= c <= 0x5A) && !(0xC0 <= c <= 0xDE && c != 0xD7) ==> r == c
  {
    if 0x41 <= c <= 0x5A || (0xC0 <= c <= 0xDE && c != 0xD7) then c + 32 else c
  }

  function ToLower(s: Bytes): (r: Bytes)
    ensures |r| == |s|
    ensures forall i :: 0 <= i < |s| ==> r[i] == LowerByte(s[i])
  {
    seq(|s|, i requires 0 <= i < |s| => LowerByte(s[i]))
  }

  // Facts about sequences, stated once here so that proofs over byte
  // arrays built by the codec do not have to rediscover them.

  lemma AppendAssoc<T>(a: seq<T>, b: seq<T>, c: seq<T>)
    ensures (a + b) + c == a + (b + c)
  {}

  lemma TakeTake<T>(s: seq<T>, q: nat, p: nat)
    requires q <= p <= |s|
    ensures s[..p][..q] == s[..q]
  {}

  lemma TakeDrop<T>(s: seq<T>, q: nat, p: nat)
    requires q <= p <= |s|
    ensures s[..p][q..] == s[q..p]
  {}

  lemma TakeAll<T>(s: seq<T>)
    ensures s[..|s|] == s
  {}

  lemma SplitJoin<T>(s: seq<T>, p: nat)
    requires p <= |s|
    ensures s[..p] + s[p..] == s
  {}

  lemma InitLast<T>(s: seq<T>)
    requires s != []
    ensures s[..|s| - 1] + [s[|s| - 1]] == s
  {}

  /** The byte array of `n` NUL bytes. */
  function Nuls(n: nat): (r: Bytes)
    ensures |r| == n && forall i :: 0 <= i < n ==> r[i] == 0
  {
    seq(n, _ => 0)
  }

  lemma NulsSucc(n: nat)
    ensures Nuls(n + 1) == Nuls(n) + [0]
  {
    assert Nuls(n + 1)[..n] == Nuls(n);
  }
}
