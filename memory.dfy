/** Raw memory as the flexible-array helpers see it: bytes, the two primitives
    they are built from (memcpy and memset), the in-memory representation of an
    unsigned count member, and the kernel allocator. */
module Memory {

  newtype byte = x: int | 0 <= x < 256

  /** n bytes of value v: what memset writes. */
  function Fill(n: nat, v: byte): (r: seq<byte>)
    ensures |r| == n
    ensures forall i :: 0 <= i < n ==> r[i] == v
  {
    seq(n, _ => v)
  }

  function Zeros(n: nat): seq<byte>
  {
    Fill(n, 0)
  }

  /** s with the |data| bytes starting at `at` replaced by data. */
  function Overwrite(s: seq<byte>, at: nat, data: seq<byte>): (r: seq<byte>)
    requires at + |data| <= |s|
    ensures |r| == |s|
  {
    s[..at] + data + s[at + |data|..]
  }

  /** Byte by byte: data inside [at, at + |data|), s elsewhere. */
  lemma OverwriteAt(s: seq<byte>, at: nat, data: seq<byte>)
    requires at + |data| <= |s|
    ensures forall i :: 0 <= i < |s| ==> Overwrite(s, at, data)[i] == if at <= i < at + |data| then data[i - at] else s[i]
  {
  }

  /** a and b agree everywhere except possibly on [lo, hi). */
  ghost predicate AgreeOutside(a: seq<byte>, b: seq<byte>, lo: nat, hi: nat)
  {
    |a| == |b| && forall i :: 0 <= i < |a| && !(lo <= i < hi) ==> a[i] == b[i]
  }

  lemma OverwriteOnlyTouchesItsRange(s: seq<byte>, at: nat, data: seq<byte>)
    requires at + |data| <= |s|
    ensures AgreeOutside(Overwrite(s, at, data), s, at, at + |data|)
    ensures Overwrite(s, at, data)[at .. at + |data|] == data
  {
    var r := Overwrite(s, at, data);
    OverwriteAt(s, at, data);
    assert forall i :: 0 <= i < |data| ==> r[at .. at + |data|][i] == data[i];
  }

  /** memcpy(dst + at, src, |src|) for a source that does not overlap dst. */
  method MemCpy(dst: array<byte>, at: nat, src: seq<byte>)
    requires at + |src| <= dst.Length
    modifies dst
    ensures dst[..] == Overwrite(old(dst[..]), at, src)
    ensures forall i :: 0 <= i < dst.Length ==> dst[i] == if at <= i < at + |src| then src[i - at] else old(dst[i])
  {
    forall i | 0 <= i < |src| {
      dst[at + i] := src[i];
    }
  }

  /** memset(dst + at, v, n). */
  method MemSet(dst: array<byte>, at: nat, n: nat, v: byte)
    requires at + n <= dst.Length
    modifies dst
    ensures dst[..] == Overwrite(old(dst[..]), at, Fill(n, v))
    ensures forall i :: 0 <= i < dst.Length ==> dst[i] == if at <= i < at + n then v else old(dst[i])
  {
    forall i | 0 <= i < n {
      dst[at + i] := v;
    }
  }

  // ---------------------------------------------------------------------
  // Unsigned integers stored in memory (little-endian, w bytes wide)
  // ---------------------------------------------------------------------

  function Pow256(w: nat): (p: nat)
    ensures p >= 1
  {
    if w == 0 then 1 else 256 * Pow256(w - 1)
  }

  /** The w bytes that store x in an unsigned w-byte integer (x is reduced
      modulo 256^w, as a C assignment to a narrower unsigned type does). */
  function EncodeLE(x: nat, w: nat): (r: seq<byte>)
    ensures |r| == w
  {
    if w == 0 then [] else [(x % 256) as byte] + EncodeLE(x / 256, w - 1)
  }

  /** The value of the unsigned integer stored in s. */
  function DecodeLE(s: seq<byte>): (x: nat)
    ensures x < Pow256(|s|)
  {
    if |s| == 0 then 0 else s[0] as nat + 256 * DecodeLE(s[1..])
  }

  /** Storing a value that the type can hold and reading it back gives the value. */
  lemma {:induction false} DecodeEncode(x: nat, w: nat)
    requires x < Pow256(w)
    ensures DecodeLE(EncodeLE(x, w)) == x
  {
    if w > 0 {
      var e := EncodeLE(x, w);
      assert e[1..] == EncodeLE(x / 256, w - 1);
      DecodeEncode(x / 256, w - 1);
    }
  }

  /** Every byte pattern is the encoding of the value it stores. */
  lemma {:induction false} EncodeDecode(s: seq<byte>)
    ensures EncodeLE(DecodeLE(s), |s|) == s
  {
    if |s| > 0 {
      var x := DecodeLE(s);
      var rest := DecodeLE(s[1..]);
      assert x == s[0] as nat + 256 * rest;
      assert x % 256 == s[0] as nat;
      assert x / 256 == rest;
      EncodeDecode(s[1..]);
      assert EncodeLE(x, |s|) == [s[0]] + s[1..];
    }
  }

  /** All-zero memory stores the value 0. */
  lemma {:induction false} DecodeZeros(s: seq<byte>)
    requires forall i :: 0 <= i < |s| ==> s[i] == 0
    ensures DecodeLE(s) == 0
  {
    if |s| > 0 {
      DecodeZeros(s[1..]);
    }
  }

  // ---------------------------------------------------------------------
  // The allocator
  // ---------------------------------------------------------------------

  /** kmalloc(n): either fails (null) or returns a fresh n-byte buffer whose
      contents the caller may not rely on. */
  method KMalloc(n: nat) returns (p: array?<byte>)
    ensures p != null ==> fresh(p) && p.Length == n
  {
    var available: bool := *;
    if available {
      p := new byte[n];
    } else {
      p := null;
    }
  }

  /** kmemdup(src, |src|): either fails (null) or returns a fresh copy of src. */
  method KMemDup(src: seq<byte>) returns (p: array?<byte>)
    ensures p != null ==> fresh(p) && p[..] == src
  {
    var available: bool := *;
    if available {
      p := new byte[|src|](i requires 0 <= i < |src| => src[i]);
    } else {
      p := null;
    }
  }
}
