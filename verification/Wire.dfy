/**
 The messages between client and server as bytes in memory: the layout of the structs of Protocol/Protocol.h, C strings,
 and 32-bit values in the byte order of a host.

 A 32-bit value is taken as its four bytes, the most significant first.
 */
module Wire {
  newtype byte = x: int | 0 <= x < 256

  datatype Endian = Little | Big

  datatype Word = Word(b3: byte, b2: byte, b1: byte, b0: byte)

  /** An enumeration constant as a 32-bit value. */
  function Code(n: byte): Word {
    Word(0, 0, 0, n)
  }

  function Swap(w: Word): Word {
    Word(w.b0, w.b1, w.b2, w.b3)
  }

  /** htonl, and ntohl as well, on a host of the given byte order. */
  function NetworkOrder(w: Word, host: Endian): Word {
    if host == Little then Swap(w) else w
  }

  function WordAt(b: seq<byte>, off: nat, host: Endian): Word
    requires off + 4 <= |b|
  {
    if host == Big then Word(b[off], b[off + 1], b[off + 2], b[off + 3])
    else Word(b[off + 3], b[off + 2], b[off + 1], b[off])
  }

  function WithWord(b: seq<byte>, off: nat, w: Word, host: Endian): (r: seq<byte>)
    requires off + 4 <= |b|
    ensures |r| == |b|
  {
    if host == Big then b[off := w.b3][off + 1 := w.b2][off + 2 := w.b1][off + 3 := w.b0]
    else b[off := w.b0][off + 1 := w.b1][off + 2 := w.b2][off + 3 := w.b3]
  }

  /** The bytes in memory of a small constant as a 32-bit value. */
  lemma CodeBytes(b: seq<byte>, off: nat, n: byte, host: Endian)
    requires off + 4 <= |b| && WordAt(b, off, host) == Code(n)
    ensures b[off..off + 4] == if host == Big then [0, 0, 0, n] else [n, 0, 0, 0]
  {
  }

  // ------------------------------------------------------------------------------------------------
  // C strings

  /** The characters from off up to the terminating zero. */
  function CString(b: seq<byte>, off: nat): (s: seq<byte>)
    requires off <= |b|
    ensures off + |s| <= |b| && s == b[off..off + |s|] && 0 !in s
    ensures off + |s| < |b| ==> b[off + |s|] == 0
    decreases |b| - off
  {
    if off == |b| || b[off] == 0 then [] else [b[off]] + CString(b, off + 1)
  }

  /** strcpy into the buffer at off. */
  function StrCpy(b: seq<byte>, off: nat, s: seq<byte>): (r: seq<byte>)
    requires off + |s| < |b|
    ensures |r| == |b|
  {
    b[..off] + s + [0] + b[off + |s| + 1..]
  }

  lemma {:induction false} CStringIs(b: seq<byte>, off: nat, s: seq<byte>)
    requires off + |s| < |b| && b[off..off + |s|] == s && b[off + |s|] == 0 && 0 !in s
    ensures CString(b, off) == s
    decreases |s|
  {
    if s != [] {
      assert b[off] == s[0] && b[off + 1..off + |s|] == s[1..];
      CStringIs(b, off + 1, s[1..]);
    }
  }

  /** What strcpy has written is what is read there, and nothing else has changed. */
  lemma StrCpyReads(b: seq<byte>, off: nat, s: seq<byte>)
    requires off + |s| < |b| && 0 !in s
    ensures CString(StrCpy(b, off, s), off) == s
    ensures forall i :: 0 <= i < |b| && !(off <= i <= off + |s|) ==> StrCpy(b, off, s)[i] == b[i]
  {
    var r := StrCpy(b, off, s);
    assert r[off..off + |s|] == s && r[off + |s|] == 0;
    CStringIs(r, off, s);
  }

  /** A string is not disturbed by changes outside it and its terminator. */
  lemma CStringKept(b: seq<byte>, b': seq<byte>, off: nat)
    requires off <= |b| <= |b'| && off + |CString(b, off)| < |b|
    requires forall i :: off <= i <= off + |CString(b, off)| ==> b'[i] == b[i]
    ensures CString(b', off) == CString(b, off)
  {
    var s := CString(b, off);
    assert b'[off..off + |s|] == s;
    CStringIs(b', off, s);
  }

  // ------------------------------------------------------------------------------------------------
  // Names as text and as bytes

  /** Text that fits a name or password field and has no NUL in it. */
  predicate WireText(s: string) {
    |s| <= 16 && forall i :: 0 <= i < |s| ==> 0 < s[i] as int < 256
  }

  function Bytes(s: string): (b: seq<byte>)
    requires WireText(s)
    ensures |b| == |s| && 0 !in b && Text(b) == s
  {
    var b := seq(|s|, i requires 0 <= i < |s| => s[i] as int as byte);
    assert Text(b) == s;
    b
  }

  function Text(b: seq<byte>): (s: string)
    ensures |s| == |b| && forall i :: 0 <= i < |b| ==> s[i] as int == b[i] as int
  {
    seq(|b|, i requires 0 <= i < |b| => b[i] as int as char)
  }
}
