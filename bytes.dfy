/** Byte-level helpers shared by both protocol variants: the byte type, the
    8-bit additive checksum, Node's `Buffer.subarray` and its 'ascii' decoding. */
module Bytes {
  import opened Base

  type byte = x: int | 0 <= x < 256

  /** The low 8 bits of a non-negative number: what `String.fromCharCode`
      followed by `Buffer.from(..., 'ascii')` keeps of it (65536 is a multiple
      of 256, so the 16-bit truncation of fromCharCode is subsumed). */
  function Low8(n: nat): byte { n % 256 }

  /** Every number of a sequence truncated to a byte, in order. */
  function ToBytes(ns: seq<nat>): (bs: seq<byte>)
    ensures |bs| == |ns|
    ensures forall k :: 0 <= k < |ns| ==> bs[k] == ns[k] % 256
  {
    seq(|ns|, k requires 0 <= k < |ns| => Low8(ns[k]))
  }

  /** Unbounded sum of the bytes, as the source's `chs += b[i]` accumulates it. */
  function Sum(s: seq<byte>): nat
  {
    if |s| == 0 then 0 else Sum(s[..|s| - 1]) + s[|s| - 1]
  }

  /** The 8-bit additive checksum: the sum masked with `& 0x00FF`. */
  function Checksum(s: seq<byte>): byte
  {
    Sum(s) % 256
  }

  lemma {:induction false} SumAppend(a: seq<byte>, b: seq<byte>)
    ensures Sum(a + b) == Sum(a) + Sum(b)
    decreases |b|
  {
    if |b| == 0 {
      assert a + b == a;
    } else {
      var b' := b[..|b| - 1];
      assert (a + b)[..|a + b| - 1] == a + b';
      SumAppend(a, b');
    }
  }

  /** The checksum of a longer buffer follows from the checksum of its
      start: the masked sum can be carried along byte by byte. */
  lemma {:induction false} ChecksumAppend(a: seq<byte>, b: seq<byte>)
    ensures Checksum(a + b) == (Checksum(a) + Sum(b)) % 256
    ensures Checksum(a + b) == (Checksum(a) + Checksum(b)) % 256
  {
    SumAppend(a, b);
    ModSum(Sum(a), Sum(b), Sum(a + b), Checksum(a), Checksum(b), Checksum(a + b));
  }

  /** The residue of a sum from the residues of its addends. */
  lemma ModSum(x: nat, y: nat, z: nat, cx: nat, cy: nat, cz: nat)
    requires z == x + y && cx == x % 256 && cy == y % 256 && cz == z % 256
    ensures cz == (cx + y) % 256 && cz == (cx + cy) % 256
  {
    ModAdd(x, y);
    ModAdd(y, cx);
  }

  /** Reducing the first addend modulo 256 does not change the sum's residue. */
  lemma ModAdd(x: nat, y: nat)
    ensures (x + y) % 256 == (x % 256 + y) % 256
  {
    var q := x / 256;
    assert x == 256 * q + x % 256;
    assert x + y == 256 * q + (x % 256 + y);
  }

  lemma SumSingle(x: byte)
    ensures Sum([x]) == x
  {
    assert [x][..0] == [];
  }

  /** Node's `buf.subarray(begin, end)`: a negative index counts back from the
      end (clamped at 0), a large one is clamped to the length, and an end at
      or before the begin gives an empty buffer. */
  function Relative(len: nat, x: int): (r: nat)
    ensures r <= len
  {
    if x < 0 then (if len + x < 0 then 0 else len + x)
    else if x > len then len else x
  }

  function Subarray(s: seq<byte>, begin: int, end: int): (r: seq<byte>)
    ensures var b, e := Relative(|s|, begin), Relative(|s|, end);
            r == if e <= b then [] else s[b..e]
    ensures |r| <= |s|
    ensures 0 <= begin <= end <= |s| ==> r == s[begin..end]
    ensures 0 <= begin <= |s| < end ==> r == s[begin..]
    ensures 0 <= end <= begin ==> r == []
  {
    var b, e := Relative(|s|, begin), Relative(|s|, end);
    if e <= b then [] else s[b..e]
  }

  /** Node's 'ascii' decoding of one byte: the high bit is cleared. */
  function AsciiChar(b: byte): char
  {
    (b % 128) as char
  }

  /** `buf.toString('ascii').replaceAll('\x00', '')`: clear the high bit of
      every byte and drop the NUL characters, order preserved. */
  function AsciiText(bs: seq<byte>): (t: string)
    ensures |t| <= |bs|
    ensures forall k :: 0 <= k < |t| ==> '\0' < t[k] < 128 as char
  {
    if |bs| == 0 then ""
    else
      var rest := AsciiText(bs[1..]);
      if bs[0] % 128 == 0 then rest else [AsciiChar(bs[0])] + rest
  }

  /** The bytes of a string of 7-bit characters: the inverse direction. */
  function AsciiBytes(t: string): (bs: seq<byte>)
    requires forall k :: 0 <= k < |t| ==> t[k] < 128 as char
    ensures |bs| == |t|
  {
    seq(|t|, k requires 0 <= k < |t| => t[k] as int)
  }

  /** A 7-bit string without NULs round-trips through its bytes: the ASCII
      view of a text response restores the text. */
  lemma {:induction false} AsciiRoundTrip(t: string)
    requires forall k :: 0 <= k < |t| ==> '\0' < t[k] < 128 as char
    ensures AsciiText(AsciiBytes(t)) == t
  {
    if |t| > 0 {
      var bs := AsciiBytes(t);
      assert bs[1..] == AsciiBytes(t[1..]);
      AsciiRoundTrip(t[1..]);
      assert [t[0]] + t[1..] == t;
    }
  }

  /** NUL bytes (and 0x80, whose low seven bits are zero) vanish from the text:
      inserting them anywhere changes nothing. */
  lemma AsciiDropsNul(a: seq<byte>, b: seq<byte>)
    ensures AsciiText(a + [0] + b) == AsciiText(a + b)
    ensures AsciiText(a + [0x80] + b) == AsciiText(a + b)
  {
    AsciiDropsZero(a, 0, b);
    AsciiDropsZero(a, 0x80, b);
  }

  lemma {:induction false} AsciiDropsZero(a: seq<byte>, z: byte, b: seq<byte>)
    requires z % 128 == 0
    ensures AsciiText(a + [z] + b) == AsciiText(a + b)
    decreases |a|
  {
    var s, s' := a + [z] + b, a + b;
    if |a| == 0 {
      assert s[1..] == b && s' == b;
    } else {
      assert s[0] == s'[0] == a[0];
      assert s[1..] == a[1..] + [z] + b;
      assert s'[1..] == a[1..] + b;
      AsciiDropsZero(a[1..], z, b);
    }
  }

  /** A byte with the high bit set reads as its low seven bits: 0xC1 gives
      'A', as a 0x41 there would. */
  lemma {:induction false} AsciiHighBit(a: seq<byte>, z: byte, b: seq<byte>)
    ensures AsciiText(a + [z] + b) == AsciiText(a + [z % 128] + b)
    decreases |a|
  {
    var s, s' := a + [z] + b, a + [z % 128] + b;
    if |a| == 0 {
      assert s[0] == z && s'[0] == z % 128 && (z % 128) % 128 == z % 128;
      assert s[1..] == b && s'[1..] == b;
    } else {
      assert s[0] == s'[0] == a[0];
      assert s[1..] == a[1..] + [z] + b;
      assert s'[1..] == a[1..] + [z % 128] + b;
      AsciiHighBit(a[1..], z, b);
    }
  }

  /** `buf[k]`: the byte at index `k`, or `None` for JavaScript's `undefined`
      past the end. */
  function ByteAt(s: seq<byte>, k: nat): (r: Option<byte>)
    ensures r.Some? <==> k < |s|
    ensures r.Some? ==> r.value == s[k]
  {
    if k < |s| then Some(s[k]) else None
  }

  /** The source's checksum loop `for (i = from; i < b.length; i++) chs += b[i]`. */
  method SumFrom(b: seq<byte>, from: nat) returns (chs: nat)
    requires from <= |b|
    ensures chs == Sum(b[from..])
  {
    chs := 0;
    for i := from to |b|
      invariant chs == Sum(b[from..i])
    {
      assert b[from..i + 1][..i - from] == b[from..i];
      chs := chs + b[i];
    }
    assert b[from..|b|] == b[from..];
  }
}
