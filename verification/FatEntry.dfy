// How FAT12, FAT16 and FAT32 pack their entries into bytes.

module FatEntry {
  import opened Bytes

  datatype Kind = Fat12 | Fat16 | Fat32

  // One more than the largest value an entry holds
  function Limit(kind: Kind): (n: nat)
    ensures n > 0
  {
    match kind
    case Fat12 => 0x1000
    case Fat16 => 0x1_0000
    case Fat32 => 0x1000_0000
  }

  // Offset of the first byte of entry c, and how many bytes it touches
  function Offset(kind: Kind, c: nat): nat {
    match kind
    case Fat12 => c + c / 2
    case Fat16 => 2 * c
    case Fat32 => 4 * c
  }

  function Touched(kind: Kind): nat {
    if kind == Fat32 then 4 else 2
  }

  predicate Fits(kind: Kind, fat: seq<byte>, n: nat) {
    n > 0 ==> Offset(kind, n - 1) + Touched(kind) <= |fat|
  }

  lemma FitsEach(kind: Kind, fat: seq<byte>, n: nat, c: nat)
    requires Fits(kind, fat, n) && c < n
    ensures Offset(kind, c) + Touched(kind) <= |fat|
  {
  }

  // The value of entry c
  function Load(kind: Kind, fat: seq<byte>, c: nat): (v: nat)
    requires Offset(kind, c) + Touched(kind) <= |fat|
    ensures v < Limit(kind)
  {
    var o := Offset(kind, c);
    match kind
    case Fat12 =>
      if c % 2 == 1 then fat[o] / 16 + fat[o + 1] * 16
      else fat[o] + fat[o + 1] % 16 * 256
    case Fat16 => fat[o] + fat[o + 1] * 0x100
    case Fat32 => FromLe32(fat[o..o + 4]) % 0x1000_0000
  }

  // The bits of entry c that no value changes
  function Reserved(kind: Kind, fat: seq<byte>, c: nat): nat
    requires Offset(kind, c) + Touched(kind) <= |fat|
  {
    if kind == Fat32 then fat[Offset(kind, c) + 3] / 16 else 0
  }

  // ---- Storing, byte by byte ----------------------------------------------------

  function First(kind: Kind, b: byte, c: nat, v: nat): byte {
    if kind == Fat12 && c % 2 == 1 then b % 16 + v % 16 * 16 else v % 256
  }

  function Second(kind: Kind, b: byte, c: nat, v: nat): byte {
    if kind == Fat12 then
      if c % 2 == 1 then v / 16 % 256 else b / 16 * 16 + v / 256 % 16
    else v / 256 % 256
  }

  function Store(kind: Kind, fat: seq<byte>, c: nat, v: nat): (r: seq<byte>)
    requires Offset(kind, c) + Touched(kind) <= |fat|
    ensures |r| == |fat|
  {
    var o := Offset(kind, c);
    if kind == Fat32 then
      fat[o := v % 256][o + 1 := v / 256 % 256][o + 2 := v / 0x1_0000 % 256]
         [o + 3 := v / 0x100_0000 % 16 + fat[o + 3] / 16 * 16]
    else fat[o := First(kind, fat[o], c, v)][o + 1 := Second(kind, fat[o + 1], c, v)]
  }

  // A stored value reads back, cut to the width of the entry.
  lemma StoreLoadSame(kind: Kind, fat: seq<byte>, c: nat, v: nat)
    requires Offset(kind, c) + Touched(kind) <= |fat|
    ensures Load(kind, Store(kind, fat, c, v), c) == v % Limit(kind)
    ensures Reserved(kind, Store(kind, fat, c, v), c) == Reserved(kind, fat, c)
  {
    match kind
    case Fat12 => StoreLoad12(fat, c, v);
    case Fat16 => StoreLoad16(fat, c, v);
    case Fat32 => StoreLoad32(fat, c, v);
  }

  lemma StoreLoad12(fat: seq<byte>, c: nat, v: nat)
    requires Offset(Fat12, c) + 2 <= |fat|
    ensures Load(Fat12, Store(Fat12, fat, c, v), c) == v % 0x1000
  {
    hide First, Second;
    var o := c + c / 2;
    if c % 2 == 1 {
      Odd12(fat[o], fat[o + 1], c, v);
    } else {
      Even12(fat[o], fat[o + 1], c, v);
    }
  }

  lemma Odd12(b: byte, b': byte, c: nat, v: nat)
    requires c % 2 == 1
    ensures First(Fat12, b, c, v) / 16 + Second(Fat12, b', c, v) * 16 == v % 0x1000
  {
    assert (b % 16 + v % 16 * 16) / 16 == v % 16;
  }

  lemma Even12(b: byte, b': byte, c: nat, v: nat)
    requires c % 2 == 0
    ensures First(Fat12, b, c, v) + Second(Fat12, b', c, v) % 16 * 256 == v % 0x1000
  {
    assert (b' / 16 * 16 + v / 256 % 16) % 16 == v / 256 % 16;
  }

  lemma StoreLoad16(fat: seq<byte>, c: nat, v: nat)
    requires Offset(Fat16, c) + 2 <= |fat|
    ensures Load(Fat16, Store(Fat16, fat, c, v), c) == v % 0x1_0000
  {
  }

  lemma StoreLoad32(fat: seq<byte>, c: nat, v: nat)
    requires Offset(Fat32, c) + 4 <= |fat|
    ensures Load(Fat32, Store(Fat32, fat, c, v), c) == v % 0x1000_0000
    ensures Reserved(Fat32, Store(Fat32, fat, c, v), c) == Reserved(Fat32, fat, c)
  {
    var r, o := Store(Fat32, fat, c, v), 4 * c;
    assert r[o..o + 4] == [r[o], r[o + 1], r[o + 2], r[o + 3]];
    var x := r[o..o + 4];
    Split28(v, fat[o + 3] / 16, x[0], x[1], x[2], x[3]);
  }

  lemma Split28(v: nat, top: nat, b0: nat, b1: nat, b2: nat, b3: nat)
    requires b0 == v % 256 && b1 == v / 256 % 256 && b2 == v / 0x1_0000 % 256 && b3 == v / 0x100_0000 % 16 + top * 16
    ensures (b0 + b1 * 0x100 + b2 * 0x1_0000 + b3 * 0x100_0000) % 0x1000_0000 == v % 0x1000_0000
  {
    var v1, v2, v3 := v / 256, v / 0x1_0000, v / 0x100_0000;
    assert v2 == v1 / 256 && v3 == v2 / 256;
    var low: nat := b0 + b1 * 0x100 + b2 * 0x1_0000 + v3 % 16 * 0x100_0000;
    assert v == low + v3 / 16 * 0x1000_0000;
    LowBits(low, v3 / 16);
    LowBits(low, top);
  }

  lemma LowBits(low: nat, high: nat)
    requires low < 0x1000_0000
    ensures (low + high * 0x1000_0000) % 0x1000_0000 == low
  {
  }

  // No other entry changes, although FAT12 entries share bytes.
  lemma StoreLoadOther(kind: Kind, fat: seq<byte>, c: nat, v: nat, d: nat)
    requires Offset(kind, c) + Touched(kind) <= |fat| && Offset(kind, d) + Touched(kind) <= |fat| && c != d
    ensures Load(kind, Store(kind, fat, c, v), d) == Load(kind, fat, d)
    ensures Reserved(kind, Store(kind, fat, c, v), d) == Reserved(kind, fat, d)
  {
    var r, p := Store(kind, fat, c, v), Offset(kind, d);
    match kind
    case Fat12 => StoreLoadOther12(fat, c, v, d);
    case Fat16 =>
    case Fat32 =>
      assert r[p..p + 4] == fat[p..p + 4];
  }

  lemma StoreLoadOther12(fat: seq<byte>, c: nat, v: nat, d: nat)
    requires Offset(Fat12, c) + 2 <= |fat| && Offset(Fat12, d) + 2 <= |fat| && c != d
    ensures Load(Fat12, Store(Fat12, fat, c, v), d) == Load(Fat12, fat, d)
  {
    if d + 1 < c || c + 1 < d {
      hide First, Second;
      assert d + d / 2 + 1 < c + c / 2 || c + c / 2 + 1 < d + d / 2;
    } else {
      Neighbours12(fat, c, v, d);
    }
  }

  lemma Neighbours12(fat: seq<byte>, c: nat, v: nat, d: nat)
    requires Offset(Fat12, c) + 2 <= |fat| && Offset(Fat12, d) + 2 <= |fat| && (d == c + 1 || c == d + 1)
    ensures Load(Fat12, Store(Fat12, fat, c, v), d) == Load(Fat12, fat, d)
  {
    if c % 2 == 1 {
      assert c == d + 1 ==> c + c / 2 == d + d / 2 + 1;
    } else {
      assert d == c + 1 ==> d + d / 2 == c + c / 2 + 1;
    }
  }

  // The first n entries
  function EntriesOf(kind: Kind, fat: seq<byte>, n: nat): (e: seq<nat>)
    requires Fits(kind, fat, n)
    ensures |e| == n
    ensures forall c {:trigger e[c]} :: 0 <= c < n ==> e[c] == Load(kind, fat, c)
  {
    seq(n, c requires 0 <= c < n => Load(kind, fat, c))
  }

  // Storing a value is an update of the table.
  lemma StoreEntries(kind: Kind, fat: seq<byte>, n: nat, c: nat, v: nat)
    requires Fits(kind, fat, n) && c < n
    ensures Offset(kind, c) + Touched(kind) <= |fat|
    ensures EntriesOf(kind, Store(kind, fat, c, v), n) == EntriesOf(kind, fat, n)[c := v % Limit(kind)]
  {
    hide Load, Store, Limit;
    FitsEach(kind, fat, n, c);
    var fat' := Store(kind, fat, c, v);
    var e, e' := EntriesOf(kind, fat, n)[c := v % Limit(kind)], EntriesOf(kind, fat', n);
    StoreLoadSame(kind, fat, c, v);
    forall d: nat | d < n
      ensures e'[d] == e[d]
    {
      FitsEach(kind, fat, n, d);
      if d != c {
        StoreLoadOther(kind, fat, c, v, d);
      }
    }
  }
}
