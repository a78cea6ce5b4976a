/** Bytes, 16-bit words and the little helpers every other module shares. */
module Bytes {

  type byte = bv8
  type word = bv16

  datatype Option<+T> = None | Some(value: T)

  function Min(a: int, b: int): int {
    if a <= b then a else b
  }

  /** The byte whose value is n. */
  function Byte(n: nat): (b: byte)
    requires n < 0x100
    ensures b as nat == n
  {
    if n == 0 then 0
    else
      var p := Byte(n - 1);
      ByteSucc(p);
      p + 1
  }

  lemma ByteSucc(b: byte)
    requires b as nat < 0xFF
    ensures (b + 1) as nat == b as nat + 1
  {
    MaxByte(b);
    NotMaxSucc(b);
  }

  lemma MaxByte(b: byte)
    requires b as nat < 0xFF
    ensures b != 0xFF
  {
  }

  lemma NotMaxSucc(b: byte)
    requires b != 0xFF
    ensures (b + 1) as nat == b as nat + 1
  {
  }

  /** The value of a 16-bit word, read off its two bytes. */
  function Val(w: word): (n: nat)
    ensures n < 0x1_0000
  {
    Low(w) as nat + 0x100 * (High(w) as nat)
  }

  function Low(w: word): byte { (w & 0xFF) as byte }

  function High(w: word): byte { (w >> 8) as byte }

  /** The 16-bit word whose value is n. */
  function Word(n: nat): (w: word)
    requires n < 0x1_0000
    ensures Val(w) == n
  {
    var lo, hi := Byte(n % 0x100), Byte(n / 0x100);
    FromLe16Bytes(lo, hi);
    FromLe16(lo, hi)
  }

  lemma FromLe16Bytes(lo: byte, hi: byte)
    ensures Low(FromLe16(lo, hi)) == lo && High(FromLe16(lo, hi)) == hi
  {
  }

  lemma ByteUnique(a: byte, b: byte)
    requires a as nat == b as nat
    ensures a == b
  {
    assert (a as nat) as byte == a;
    assert (b as nat) as byte == b;
  }

  /** A word is determined by its value. */
  lemma WordUnique(a: word, b: word)
    requires Val(a) == Val(b)
    ensures a == b
  {
    SameBytes(Low(a), High(a), Low(b), High(b));
    WordOfBytes(a, b);
  }

  lemma SameBytes(lo: byte, hi: byte, lo': byte, hi': byte)
    requires lo as nat + 0x100 * (hi as nat) == lo' as nat + 0x100 * (hi' as nat)
    ensures lo == lo' && hi == hi'
  {
    ByteUnique(lo, lo');
    ByteUnique(hi, hi');
  }

  lemma WordOfBytes(a: word, b: word)
    requires Low(a) == Low(b) && High(a) == High(b)
    ensures a == b
  {
  }

  /** htole16: low byte first. */
  function Le16(w: word): (s: seq<byte>)
    ensures |s| == 2
  {
    [Low(w), High(w)]
  }

  /** le16toh of two consecutive bytes. */
  function FromLe16(lo: byte, hi: byte): word {
    (lo as word) | ((hi as word) << 8)
  }

  lemma Le16RoundTrip(w: word)
    ensures FromLe16(Le16(w)[0], Le16(w)[1]) == w
  {
  }

  lemma FromLe16RoundTrip(lo: byte, hi: byte)
    ensures Le16(FromLe16(lo, hi)) == [lo, hi]
  {
  }

  /** The word stored at offset at. */
  function WordAt(s: seq<byte>, at: nat): word
    requires at + 2 <= |s|
  {
    FromLe16(s[at], s[at + 1])
  }

  /** A 16-bit value stored high byte first. */
  function Big16(hi: byte, lo: byte): (n: nat)
    ensures n < 0x1_0000
  {
    0x100 * (hi as nat) + lo as nat
  }

  /** s with src copied over the bytes from at on: a memcpy into a buffer. */
  function Splice<T>(s: seq<T>, at: nat, src: seq<T>): (r: seq<T>)
    requires at + |src| <= |s|
    ensures |r| == |s|
    ensures forall i :: 0 <= i < |s| ==> r[i] == if at <= i < at + |src| then src[i - at] else s[i]
  {
    s[..at] + src + s[at + |src|..]
  }

  lemma SpliceParts<T>(s: seq<T>, at: nat, src: seq<T>)
    requires at + |src| <= |s|
    ensures Splice(s, at, src)[at..at + |src|] == src
    ensures Splice(s, at, src)[..at] == s[..at]
    ensures Splice(s, at, src)[at + |src|..] == s[at + |src|..]
  {
  }

  function Fill<T>(n: nat, v: T): (s: seq<T>)
    ensures |s| == n && forall i :: 0 <= i < n ==> s[i] == v
  {
    seq(n, _ => v)
  }

  function Reverse<T>(s: seq<T>): (r: seq<T>)
    ensures |r| == |s| && forall i :: 0 <= i < |s| ==> r[i] == s[|s| - 1 - i]
  {
    seq(|s|, i requires 0 <= i < |s| => s[|s| - 1 - i])
  }

  lemma ReverseTwice<T>(s: seq<T>)
    ensures Reverse(Reverse(s)) == s
  {
  }
}
