/**
  The UTF-8 view of a string. Rust's `String` is stored as UTF-8 bytes and
  `&s[n..]` slices at BYTE offset `n`, panicking unless `n` falls on a
  character boundary. Here a string is a sequence of code points, and this
  module relates character positions to byte offsets.
 */
module Utf8 {
  import opened Wrappers

  type byte = x: int | 0 <= x < 0x100

  /** Number of bytes UTF-8 uses for one code point. */
  function Width(c: char): (w: nat)
    ensures 1 <= w <= 4
  {
    var n := c as int;
    if n < 0x80 then 1
    else if n < 0x800 then 2
    else if n < 0x1_0000 then 3
    else 4
  }

  /** The UTF-8 encoding of one code point. */
  function EncodeChar(c: char): (bs: seq<byte>)
    ensures |bs| == Width(c)
    ensures c as int < 0x80 ==> bs == [c as int]
  {
    var n := c as int;
    if n < 0x80 then [n]
    else if n < 0x800 then [0xC0 + n / 0x40, 0x80 + n % 0x40]
    else if n < 0x1_0000 then [0xE0 + n / 0x1000, 0x80 + (n / 0x40) % 0x40, 0x80 + n % 0x40]
    else [0xF0 + n / 0x4_0000, 0x80 + (n / 0x1000) % 0x40, 0x80 + (n / 0x40) % 0x40, 0x80 + n % 0x40]
  }

  /** Length in bytes of the UTF-8 encoding of `s` (Rust's `str::len`). */
  function ByteLen(s: string): (n: nat)
  {
    if |s| == 0 then 0 else Width(s[0]) + ByteLen(s[1..])
  }

  /** The UTF-8 encoding of `s` (Rust's `str::as_bytes`). */
  function Encode(s: string): (bs: seq<byte>)
    ensures |bs| == ByteLen(s)
  {
    if |s| == 0 then [] else EncodeChar(s[0]) + Encode(s[1..])
  }

  /** Byte offset `n` is a character boundary of `s` (Rust's `str::is_char_boundary`):
      some prefix of `s` encodes to exactly `n` bytes. */
  ghost predicate IsCharBoundary(s: string, n: nat)
  {
    exists k :: 0 <= k <= |s| && ByteLen(s[..k]) == n
  }

  /** The character position at byte offset `n`, if `n` is a boundary. */
  function CharIndexAt(s: string, n: nat): (r: Option<nat>)
    ensures r.Some? ==> r.value <= |s| && ByteLen(s[..r.value]) == n
    ensures r.None? ==> forall k :: 0 <= k <= |s| ==> ByteLen(s[..k]) != n
  {
    if n == 0 then
      assert s[..0] == [];
      Some(0)
    else if |s| == 0 || n < Width(s[0]) then
      assert forall k :: 1 <= k <= |s| ==> ByteLen(s[..k]) == Width(s[0]) + ByteLen(s[1..][..k - 1]) by {
        forall k | 1 <= k <= |s| ensures ByteLen(s[..k]) == Width(s[0]) + ByteLen(s[1..][..k - 1]) {
          assert s[..k][1..] == s[1..][..k - 1];
        }
      }
      assert ByteLen(s[..0]) == 0;
      None
    else
      var rest := CharIndexAt(s[1..], n - Width(s[0]));
      assert forall k :: 1 <= k <= |s| ==> ByteLen(s[..k]) == Width(s[0]) + ByteLen(s[1..][..k - 1]) by {
        forall k | 1 <= k <= |s| ensures ByteLen(s[..k]) == Width(s[0]) + ByteLen(s[1..][..k - 1]) {
          assert s[..k][1..] == s[1..][..k - 1];
        }
      }
      assert ByteLen(s[..0]) == 0;
      match rest
      case None => None
      case Some(i) => Some(i + 1)
  }

  /** Rust's `&s[n..]`: the suffix from byte offset `n`, or `None` where Rust panics. */
  function SliceFrom(s: string, n: nat): (r: Option<string>)
    ensures r.Some? <==> IsCharBoundary(s, n)
    ensures r.Some? ==> n <= ByteLen(s) && Encode(r.value) == Encode(s)[n..]
  {
    match CharIndexAt(s, n)
    case None => None
    case Some(k) =>
      EncodeAppend(s[..k], s[k..]);
      assert s[..k] + s[k..] == s;
      Some(s[k..])
  }

  lemma {:induction false} EncodeAppend(a: string, b: string)
    ensures Encode(a + b) == Encode(a) + Encode(b)
    decreases |a|
  {
    if |a| == 0 {
      assert a + b == b;
    } else {
      assert (a + b)[1..] == a[1..] + b;
      EncodeAppend(a[1..], b);
    }
  }

  /** On ASCII text, bytes and characters coincide: every offset up to the
      length is a boundary and `&s[n..]` is the character suffix `s[n..]`. */
  lemma AsciiSliceFrom(s: string, n: nat)
    requires forall i :: 0 <= i < |s| ==> s[i] as int < 0x80
    requires n <= |s|
    ensures SliceFrom(s, n) == Some(s[n..])
  {
    AsciiByteLen(s[..n]);
    assert IsCharBoundary(s, n);
    var k := CharIndexAt(s, n).value;
    AsciiByteLen(s[..k]);
  }

  lemma {:induction false} AsciiByteLen(s: string)
    requires forall i :: 0 <= i < |s| ==> s[i] as int < 0x80
    ensures ByteLen(s) == |s|
  {
    if |s| > 0 {
      AsciiByteLen(s[1..]);
    }
  }

  /** A string shorter than `n` bytes has no boundary at `n`, so `&s[n..]` panics. */
  lemma SliceBeyondEndPanics(s: string, n: nat)
    requires ByteLen(s) < n
    ensures SliceFrom(s, n) == None
  {
    forall k | 0 <= k <= |s| ensures ByteLen(s[..k]) <= ByteLen(s) {
      PrefixByteLen(s, k);
    }
  }

  lemma PrefixByteLen(s: string, k: nat)
    requires k <= |s|
    ensures ByteLen(s[..k]) <= ByteLen(s)
  {
    EncodeAppend(s[..k], s[k..]);
    assert s[..k] + s[k..] == s;
  }
}
