/**
 * Definitions shared by every component: bytes, an optional value standing
 * for a C pointer that may be NULL, the little-endian layout of C unsigned
 * integers on the target (x86-64), and memcpy into a byte array.
 */
module Common {

  /** One byte of memory (C `uint8_t` / `char` as raw storage). */
  newtype byte = x: int | 0 <= x < 256

  /** A pointer argument that may be NULL. */
  datatype Option<T> = None | Some(value: T)

  /** 256^n: the number of values an n-byte unsigned integer can hold. */
  function Pow256(n: nat): (r: nat)
    ensures r >= 1
    ensures n >= 1 ==> r >= 256
  {
    if n == 0 then 1 else 256 * Pow256(n - 1)
  }

  /** The n bytes that hold the unsigned integer x in memory, least significant first. */
  function EncodeLE(x: nat, n: nat): (r: seq<byte>)
    requires x < Pow256(n)
    ensures |r| == n
  {
    if n == 0 then [] else [(x % 256) as byte] + EncodeLE(x / 256, n - 1)
  }

  /** The unsigned integer that the bytes s hold, least significant first. */
  function DecodeLE(s: seq<byte>): (r: nat)
    ensures r < Pow256(|s|)
  {
    if |s| == 0 then 0 else s[0] as nat + 256 * DecodeLE(s[1..])
  }

  /** Reading back the bytes of an integer gives the integer. */
  lemma {:induction false} DecodeEncodeLE(x: nat, n: nat)
    requires x < Pow256(n)
    ensures DecodeLE(EncodeLE(x, n)) == x
  {
    if n > 0 {
      var s := EncodeLE(x, n);
      assert s[1..] == EncodeLE(x / 256, n - 1);
      DecodeEncodeLE(x / 256, n - 1);
    }
  }

  /** Writing out the integer that some bytes hold gives those bytes back. */
  lemma {:induction false} EncodeDecodeLE(s: seq<byte>)
    ensures EncodeLE(DecodeLE(s), |s|) == s
  {
    if |s| > 0 {
      var x := DecodeLE(s);
      var rest := DecodeLE(s[1..]);
      assert x == s[0] as nat + 256 * rest;
      assert x % 256 == s[0] as nat;
      assert x / 256 == rest;
      EncodeDecodeLE(s[1..]);
    }
  }

  /** The bytes dst after the bytes src are copied over them starting at offset off. */
  function Spliced<T>(dst: seq<T>, off: nat, src: seq<T>): (r: seq<T>)
    requires off + |src| <= |dst|
    ensures |r| == |dst|
    ensures forall i :: 0 <= i < |r| ==> r[i] == if off <= i < off + |src| then src[i - off] else dst[i]
  {
    dst[..off] + src + dst[off + |src|..]
  }

  /** The copied bytes can be read back where they were put. */
  lemma SplicedRead<T>(dst: seq<T>, off: nat, src: seq<T>)
    requires off + |src| <= |dst|
    ensures Spliced(dst, off, src)[off..off + |src|] == src
  {
  }

  /** memcpy(dst + off, src, |src|). */
  method MemCopy(dst: array<byte>, off: nat, src: seq<byte>)
    requires off + |src| <= dst.Length
    modifies dst
    ensures dst[..] == Spliced(old(dst[..]), off, src)
  {
    forall i | 0 <= i < |src| {
      dst[off + i] := src[i];
    }
  }
}
