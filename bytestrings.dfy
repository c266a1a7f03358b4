/** Byte strings, the fixed-width unsigned integers of the Appinfo format, and
    their little-endian packing (what `struct.pack`/`struct.unpack_from` do with
    a '<' format). */
module ByteStrings {

  type byte = x: int | 0 <= x < 256
  type Bytes = seq<byte>

  type u16 = x: int | 0 <= x < 0x1_0000
  type u32 = x: int | 0 <= x < 0x1_0000_0000
  type u64 = x: int | 0 <= x < 0x1_0000_0000_0000_0000

  /** 256 to the power `width`: one more than the largest value `width` bytes hold. */
  function Pow256(width: nat): (r: nat)
    ensures r >= 1
  {
    if width == 0 then 1 else 256 * Pow256(width - 1)
  }

  lemma Pow256Values()
    ensures Pow256(1) == 0x100
    ensures Pow256(2) == 0x1_0000
    ensures Pow256(4) == 0x1_0000_0000
    ensures Pow256(8) == 0x1_0000_0000_0000_0000
  {
    assert Pow256(1) == 256 * Pow256(0);
    assert Pow256(2) == 256 * Pow256(1);
    assert Pow256(3) == 256 * Pow256(2);
    assert Pow256(4) == 256 * Pow256(3);
    assert Pow256(5) == 256 * Pow256(4);
    assert Pow256(6) == 256 * Pow256(5);
    assert Pow256(7) == 256 * Pow256(6);
    assert Pow256(8) == 256 * Pow256(7);
  }

  /** The `width` bytes of `n`, least significant byte first. */
  function Pack(n: nat, width: nat): (r: Bytes)
    requires n < Pow256(width)
    ensures |r| == width
  {
    if width == 0 then [] else [n % 256] + Pack(n / 256, width - 1)
  }

  /** The number whose little-endian bytes are `s`. */
  function Unpack(s: Bytes): (r: nat)
    ensures r < Pow256(|s|)
  {
    if s == [] then 0 else s[0] + 256 * Unpack(s[1..])
  }

  /** Unpacking what was packed gives the number back. */
  lemma {:induction false} UnpackPack(n: nat, width: nat)
    requires n < Pow256(width)
    ensures Unpack(Pack(n, width)) == n
  {
    if width > 0 {
      var p := Pack(n, width);
      UnpackPack(n / 256, width - 1);
      assert p[1..] == Pack(n / 256, width - 1);
      assert p[0] == n % 256;
    }
  }

  /** Packing what was unpacked gives the same bytes back: every byte string of
      length `width` is the packing of exactly one number. */
  lemma {:induction false} PackUnpack(s: Bytes)
    ensures Pack(Unpack(s), |s|) == s
  {
    if s != [] {
      PackUnpack(s[1..]);
      var n := Unpack(s);
      assert n % 256 == s[0];
      assert n / 256 == Unpack(s[1..]);
    }
  }

  /** A byte string with no NUL byte in it. */
  predicate NulFree(s: Bytes) {
    forall i :: 0 <= i < |s| ==> s[i] != 0
  }

  /** `data` holds exactly the bytes `x` from offset `off` on. */
  predicate At(data: Bytes, off: nat, x: Bytes) {
    off + |x| <= |data| && data[off..off + |x|] == x
  }

  /** Bytes `x + y` at `off` are `x` at `off` followed by `y` right after it. */
  lemma AtSplit(data: Bytes, off: nat, x: Bytes, y: Bytes)
    ensures At(data, off, x + y) <==> At(data, off, x) && At(data, off + |x|, y)
  {
    if At(data, off, x + y) {
      assert data[off..off + |x|] == (x + y)[..|x|];
      assert data[off + |x|..off + |x| + |y|] == (x + y)[|x|..];
    }
    if At(data, off, x) && At(data, off + |x|, y) {
      assert data[off..off + |x + y|] == data[off..off + |x|] + data[off + |x|..off + |x| + |y|];
    }
  }

  /** The two halves of `x + y` at `off`, with the offset `mid` of the
      second given by name. */
  lemma AtParts(data: Bytes, off: nat, x: Bytes, y: Bytes, mid: nat)
    requires At(data, off, x + y) && mid == off + |x|
    ensures At(data, off, x) && At(data, mid, y)
  {
    AtSplit(data, off, x, y);
  }

  /** `x` at `off` and `y` at `mid`, right after it, are `x + y` at `off`. */
  lemma AtJoin(data: Bytes, off: nat, x: Bytes, y: Bytes, mid: nat)
    requires At(data, off, x) && At(data, mid, y) && mid == off + |x|
    ensures At(data, off, x + y)
  {
    AtSplit(data, off, x, y);
  }
}
