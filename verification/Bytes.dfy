// Bytes, 32-bit little-endian words, and writing over byte sequences.

module Bytes {
  type byte = x: int | 0 <= x < 256

  function Le32(n: nat): (s: seq<byte>)
    requires n < 0x1_0000_0000
    ensures |s| == 4
  {
    [n % 0x100, n / 0x100 % 0x100, n / 0x1_0000 % 0x100, n / 0x100_0000]
  }

  function FromLe32(s: seq<byte>): nat
    requires |s| == 4
  {
    s[0] as nat + s[1] as nat * 0x100 + s[2] as nat * 0x1_0000 + s[3] as nat * 0x100_0000
  }

  lemma FromToLe32(n: nat)
    requires n < 0x1_0000_0000
    ensures FromLe32(Le32(n)) == n
  {
    assert n / 0x1_0000 == n / 0x100 / 0x100;
    assert n / 0x100_0000 == n / 0x1_0000 / 0x100;
  }

  lemma ToFromLe32(s: seq<byte>)
    requires |s| == 4
    ensures FromLe32(s) < 0x1_0000_0000
    ensures Le32(FromLe32(s)) == s
  {
    var n: nat, a: nat, b: nat, c: nat := FromLe32(s), s[1] as nat, s[2] as nat, s[3] as nat;
    assert n / 0x100 == a + b * 0x100 + c * 0x1_0000;
    assert n / 0x1_0000 == b + c * 0x100;
    assert n / 0x100_0000 == c;
  }

  // v with d written at p
  function Overwrite(v: seq<byte>, p: nat, d: seq<byte>): (r: seq<byte>)
    requires p <= |v|
    ensures |r| == if p + |d| <= |v| then |v| else p + |d|
    ensures forall i :: 0 <= i < |r| ==> r[i] == if p <= i < p + |d| then d[i - p] else v[i]
  {
    v[..p] + d + if p + |d| <= |v| then v[p + |d|..] else []
  }

  lemma OverwriteTwice(v: seq<byte>, p: nat, d: seq<byte>, e: seq<byte>)
    requires p <= |v|
    ensures Overwrite(Overwrite(v, p, d), p + |d|, e) == Overwrite(v, p, d + e)
  {
  }

  lemma OverwriteMore(v: seq<byte>, p: nat, d: seq<byte>, done: nat, n: nat)
    requires p <= |v| && done + n <= |d|
    ensures Overwrite(Overwrite(v, p, d[..done]), p + done, d[done..][..n]) == Overwrite(v, p, d[..done + n])
  {
    assert d[..done] + d[done..][..n] == d[..done + n];
    OverwriteTwice(v, p, d[..done], d[done..][..n]);
  }

  lemma OverwriteNothing(v: seq<byte>, p: nat)
    requires p <= |v|
    ensures Overwrite(v, p, []) == v
  {
  }

  // data laid over a block at an offset
  function Laid(block: seq<byte>, off: nat, data: seq<byte>): (r: seq<byte>)
    requires off + |data| <= |block|
    ensures |r| == |block|
    ensures forall i {:trigger r[i]} :: 0 <= i < |r| ==>
              r[i] == if off <= i < off + |data| then data[i - off] else block[i]
  {
    block[..off] + data + block[off + |data|..]
  }

  // What fits into a buffer of this size, with zeros behind it
  function Fit(data: seq<byte>, gsize: nat): (buffer: seq<byte>)
    ensures |buffer| == gsize
    ensures gsize <= |data| ==> buffer == data[..gsize]
    ensures forall i :: 0 <= i < gsize ==> buffer[i] == if i < |data| then data[i] else 0
  {
    if gsize <= |data| then data[..gsize] else data + seq(gsize - |data|, _ => 0 as byte)
  }
}
