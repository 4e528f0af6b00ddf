/**
 Bytes, little-endian fields and 8-bit sums: the raw view of memory that the
 linker/loader patches, and of the fw_cfg files that it writes.
 */
module Bytes {
  import opened Words

  /** The number of values that an n-byte field can hold. */
  function Pow256(n: nat): (p: nat)
    ensures p >= 1
  {
    if n == 0 then 1 else 256 * Pow256(n - 1)
  }

  lemma Pow256Widths()
    ensures Pow256(1) == 0x100
    ensures Pow256(2) == 0x1_0000
    ensures Pow256(4) == 0x1_0000_0000
    ensures Pow256(8) == 0x1_0000_0000_0000_0000
  {
    assert Pow256(2) == 256 * Pow256(1);
    assert Pow256(3) == 256 * Pow256(2);
    assert Pow256(4) == 256 * Pow256(3);
    assert Pow256(5) == 256 * Pow256(4);
    assert Pow256(6) == 256 * Pow256(5);
    assert Pow256(7) == 256 * Pow256(6);
    assert Pow256(8) == 256 * Pow256(7);
  }

  /** The value of a little-endian field. */
  function FromLE(s: seq<byte>): (v: nat)
    ensures v < Pow256(|s|)
  {
    if s == [] then 0 else s[0] + 256 * FromLE(s[1..])
  }

  /** The low n bytes of v, least significant first. */
  function ToLE(v: nat, n: nat): (s: seq<byte>)
    ensures |s| == n
  {
    if n == 0 then [] else [v % 256] + ToLE(v / 256, n - 1)
  }

  lemma FirstFour(s: seq<byte>)
    requires |s| >= 4
    ensures FromLE(s) == s[0] as int + 0x100 * s[1] as int + 0x1_0000 * s[2] as int + 0x100_0000 * s[3] as int
                         + 0x1_0000_0000 * FromLE(s[4..])
  {
    assert s[1..][1..] == s[2..] && s[2..][1..] == s[3..] && s[3..][1..] == s[4..];
    assert FromLE(s[3..]) == s[3] + 256 * FromLE(s[4..]);
    assert FromLE(s[2..]) == s[2] + 256 * FromLE(s[3..]);
    assert FromLE(s[1..]) == s[1] + 256 * FromLE(s[2..]);
  }

  /** The fields that occur in scripts and tables, byte by byte. */
  lemma LittleEndian(s: seq<byte>)
    ensures |s| == 1 ==> FromLE(s) == s[0]
    ensures |s| == 2 ==> FromLE(s) == s[0] as int + 0x100 * s[1] as int
    ensures |s| == 4 ==>
              FromLE(s) == s[0] as int + 0x100 * s[1] as int + 0x1_0000 * s[2] as int + 0x100_0000 * s[3] as int
    ensures |s| == 8 ==>
              FromLE(s) == s[0] as int + 0x100 * s[1] as int + 0x1_0000 * s[2] as int + 0x100_0000 * s[3] as int
                           + 0x1_0000_0000 * s[4] as int + 0x100_0000_0000 * s[5] as int
                           + 0x1_0000_0000_0000 * s[6] as int + 0x100_0000_0000_0000 * s[7] as int
  {
    if |s| >= 4 {
      FirstFour(s);
    }
    if |s| == 8 {
      FirstFour(s[4..]);
    }
  }

  /** A value that fits in n bytes survives being stored and loaded again. */
  lemma {:induction false} StoreLoad(v: nat, n: nat)
    requires v < Pow256(n)
    ensures FromLE(ToLE(v, n)) == v
  {
    if n == 0 {
    } else {
      StoreLoad(v / 256, n - 1);
      assert ToLE(v, n)[1..] == ToLE(v / 256, n - 1);
    }
  }

  lemma {:induction false} ToLEZero(n: nat)
    ensures ToLE(0, n) == seq(n, i => 0)
  {
    if n > 0 {
      ToLEZero(n - 1);
    }
  }

  /** s with the bytes from offset off on replaced by w. */
  function Splice(s: seq<byte>, off: nat, w: seq<byte>): (r: seq<byte>)
    requires off + |w| <= |s|
    ensures |r| == |s|
    ensures forall i :: 0 <= i < |s| ==> r[i] == if off <= i < off + |w| then w[i - off] else s[i]
  {
    s[..off] + w + s[off + |w|..]
  }

  lemma SpliceRead(s: seq<byte>, off: nat, w: seq<byte>)
    requires off + |w| <= |s|
    ensures Splice(s, off, w)[off..off + |w|] == w
  {
  }

  /** Bytes away from the spliced range read as before. */
  lemma SpliceElsewhere(s: seq<byte>, off: nat, w: seq<byte>, lo: nat, hi: nat)
    requires off + |w| <= |s|
    requires lo <= hi <= |s|
    requires hi <= off || off + |w| <= lo
    ensures Splice(s, off, w)[lo..hi] == s[lo..hi]
  {
  }

  function Total(s: seq<byte>): nat {
    if s == [] then 0 else s[0] + Total(s[1..])
  }

  lemma {:induction false} TotalConcat(a: seq<byte>, b: seq<byte>)
    ensures Total(a + b) == Total(a) + Total(b)
  {
    if a == [] {
      assert a + b == b;
    } else {
      TotalConcat(a[1..], b);
      assert (a + b)[1..] == a[1..] + b;
    }
  }

  lemma TotalUpdate(s: seq<byte>, i: nat, b: byte)
    requires i < |s|
    ensures Total(s[i := b]) == Total(s) - s[i] + b
  {
    var lo, hi := s[..i], s[i + 1..];
    assert s == lo + ([s[i]] + hi);
    assert s[i := b] == lo + ([b] + hi);
    TotalConcat(lo, [s[i]] + hi);
    TotalConcat(lo, [b] + hi);
    assert ([s[i]] + hi)[1..] == hi && ([b] + hi)[1..] == hi;
  }

  /** CalculateSum8: the sum of the bytes modulo 256. */
  function Sum8(s: seq<byte>): (r: byte) {
    Total(s) % 256
  }

  /** CalculateCheckSum8: the two's complement of the 8-bit sum. */
  function CheckSum8(s: seq<byte>): (r: byte)
    ensures (r + Sum8(s)) % 256 == 0
  {
    (256 - Sum8(s)) % 256
  }
}
