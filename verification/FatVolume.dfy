// The one-sector window through which FatFs reads and writes the FAT, and the
// entries seen through it.

module FatVolume {
  import opened Bytes
  import opened FatEntry

  const SS: nat := 512

  type Sectors = seq<seq<byte>>

  predicate ValidSectors(disk: Sectors) {
    forall s {:trigger disk[s]} :: 0 <= s < |disk| ==> |disk[s]| == SS
  }

  // The volume as the program sees it: the disk under a dirty window
  function Seen(disk: Sectors, win: seq<byte>, winsect: nat, wflag: bool): Sectors {
    if wflag && winsect < |disk| then disk[winsect := win] else disk
  }

  // The bytes of the first FAT
  function FatBytes(seen: Sectors, fatbase: nat, fsize: nat): (fat: seq<byte>)
    requires fatbase + fsize <= |seen| && ValidSectors(seen)
    ensures |fat| == SS * fsize
    ensures forall i {:trigger fat[i]} :: 0 <= i < |fat| ==> fat[i] == seen[fatbase + i / SS][i % SS]
  {
    seq(SS * fsize, i requires 0 <= i < SS * fsize => seen[fatbase + i / SS][i % SS])
  }

  // The sectors before and behind the FATs
  function OutsideOf(seen: Sectors, from: nat, to: nat): Sectors
    requires from <= to <= |seen|
  {
    seen[..from] + seen[to..]
  }

  // Changes in the second FAT show neither in the first nor outside.
  lemma FatFrame(seen: Sectors, seen': Sectors, fatbase: nat, fsize: nat, to: nat)
    requires ValidSectors(seen) && ValidSectors(seen') && fatbase + fsize <= to <= |seen| == |seen'|
    requires forall s {:trigger seen'[s]} :: 0 <= s < |seen| && !(fatbase + fsize <= s < to) ==> seen'[s] == seen[s]
    ensures OutsideOf(seen', fatbase, to) == OutsideOf(seen, fatbase, to)
    ensures FatBytes(seen', fatbase, fsize) == FatBytes(seen, fatbase, fsize)
  {
  }

  lemma FatFrame2(seen: Sectors, seen': Sectors, fatbase: nat, fsize: nat, sect: nat)
    requires ValidSectors(seen) && ValidSectors(seen') && fatbase + fsize <= sect <= |seen| == |seen'|
    requires forall s :: 0 <= s < sect ==> seen'[s] == seen[s]
    ensures FatBytes(seen', fatbase, fsize) == FatBytes(seen, fatbase, fsize)
  {
  }

  function Put(s: seq<byte>, i: nat, b: byte): seq<byte>
    requires i < |s|
  {
    s[i := b]
  }

  // One byte of one sector is one byte of the FAT.
  lemma FatPoke(seen: Sectors, seen': Sectors, fatbase: nat, fsize: nat, o: nat, b: byte)
    requires ValidSectors(seen) && fatbase + fsize <= |seen| && o < SS * fsize
    requires seen' == seen[fatbase + o / SS := Put(seen[fatbase + o / SS], o % SS, b)]
    ensures ValidSectors(seen')
    ensures FatBytes(seen', fatbase, fsize) == FatBytes(seen, fatbase, fsize)[o := b]
    ensures forall to | fatbase + fsize <= to <= |seen| :: OutsideOf(seen', fatbase, to) == OutsideOf(seen, fatbase, to)
  {
    var f, f' := FatBytes(seen, fatbase, fsize)[o := b], FatBytes(seen', fatbase, fsize);
    forall i: nat | i < |f|
      ensures f'[i] == f[i]
    {
      if i / SS == o / SS && i % SS == o % SS {
        assert i == o;
      }
    }
  }

  // The second FAT repeats every sector of the first but the dirty one.
  ghost predicate Mirrored(disk: Sectors, winsect: nat, wflag: bool, fatbase: nat, fsize: nat) {
    fatbase + 2 * fsize <= |disk| &&
    forall s: nat {:trigger disk[s]} :: fatbase <= s < fatbase + fsize && !(wflag && s == winsect) ==>
      disk[s + fsize] == disk[s]
  }

  type FatCount = n: nat | 1 <= n <= 2 witness 1

  // The sector behind the FATs
  function FatEnd(fatbase: nat, nFats: FatCount, fsize: nat): (end: nat)
    ensures fatbase + fsize <= end
  {
    if nFats == 2 then fatbase + 2 * fsize else fatbase + fsize
  }

  class Volume {
    const kind: Kind
    const fatbase: nat
    const fsize: nat
    const nFats: FatCount
    const nFatent: nat
    const win: array<byte>
    var disk: Sectors
    var winsect: nat
    var wflag: bool

    ghost predicate Valid()
      reads this, win
    {
      && win.Length == SS && ValidSectors(disk)
      && FatEnd(fatbase, nFats, fsize) <= |disk|
      && nFatent >= 2 && Offset(kind, nFatent - 1) + Touched(kind) <= SS * fsize
      && (wflag ==> winsect < |disk| && !(fatbase + fsize <= winsect < FatEnd(fatbase, nFats, fsize)))
      && (winsect < |disk| && !wflag ==> win[..] == disk[winsect])
      && (nFats == 2 ==> Mirrored(disk, winsect, wflag, fatbase, fsize))
    }

    ghost function View(): Sectors
      reads this, win
    {
      Seen(disk, win[..], winsect, wflag)
    }

    // Everything but the FATs
    ghost function Outside(): Sectors
      requires Valid()
      reads this, win
    {
      OutsideOf(View(), fatbase, FatEnd(fatbase, nFats, fsize))
    }

    ghost function Fat(): seq<byte>
      requires Valid()
      reads this, win
      ensures |Fat()| == SS * fsize
    {
      FatBytes(View(), fatbase, fsize)
    }

    // A volume as it is mounted, with nothing in the window
    constructor (kind: Kind, fatbase: nat, fsize: nat, nFats: FatCount, nFatent: nat, disk: Sectors)
      requires ValidSectors(disk) && FatEnd(fatbase, nFats, fsize) <= |disk|
      requires nFatent >= 2 && Offset(kind, nFatent - 1) + Touched(kind) <= SS * fsize
      requires nFats == 2 ==> Mirrored(disk, |disk|, false, fatbase, fsize)
      ensures Valid() && this.kind == kind && this.nFatent == nFatent && this.disk == disk
      ensures this.fatbase == fatbase && this.fsize == fsize && this.nFats == nFats
      ensures Fat() == FatBytes(disk, fatbase, fsize) && fresh(win)
    {
      this.kind, this.fatbase, this.fsize, this.nFats, this.nFatent := kind, fatbase, fsize, nFats, nFatent;
      this.disk, winsect, wflag := disk, |disk|, false;
      win := new byte[SS](_ => 0);
    }

    // Nothing changed but the FATs, and the window is where it was or on the
    // first FAT.
    twostate predicate OnlyFat()
      requires old(Valid()) && Valid()
      reads this, win
    {
      && Outside() == old(Outside()) && |disk| == |old(disk)|
      && (winsect == old(winsect) || fatbase <= winsect < fatbase + fsize)
    }

    // Sectors behind the FATs are as before, unless the window covers them.
    twostate lemma DataSame(from: nat)
      requires old(Valid()) && Valid() && OnlyFat()
      requires FatEnd(fatbase, nFats, fsize) <= from <= |disk| && (old(winsect) < from || old(winsect) >= |disk|)
      ensures disk[from..] == old(disk)[from..] && (winsect < from || winsect >= |disk|)
    {
      var a, b := disk[from..], old(disk)[from..];
      var to := FatEnd(fatbase, nFats, fsize);
      forall i | 0 <= i < |a|
        ensures a[i] == b[i]
      {
        assert Outside()[fatbase + (from + i - to)] == View()[from + i];
        assert old(Outside())[fatbase + (from + i - to)] == old(View())[from + i];
      }
    }

    // sync_window
    method SyncWindow()
      requires Valid()
      modifies this`disk, this`wflag
      ensures Valid() && !wflag && Outside() == old(Outside()) && Fat() == old(Fat()) && |disk| == |old(disk)|
    {
      ghost var seen := View();
      if wflag {
        disk := disk[winsect := win[..]];
        wflag := false;
        if fatbase <= winsect < fatbase + fsize {
          if nFats == 2 {
            disk := disk[winsect + fsize := win[..]];
          }
        }
      }
      FatFrame(seen, disk, fatbase, fsize, FatEnd(fatbase, nFats, fsize));
    }

    // move_window
    method MoveWindow(sect: nat)
      requires Valid() && sect < |disk|
      modifies this`disk, this`wflag, this`winsect, win
      ensures Valid() && winsect == sect && Outside() == old(Outside()) && Fat() == old(Fat()) && |disk| == |old(disk)|
    {
      if sect != winsect {
        SyncWindow();
        Fill(disk[sect]);
        winsect := sect;
      }
    }

    // disk_write to sectors that neither the window nor a FAT covers
    method WriteSectors(sect: nat, data: seq<seq<byte>>)
      requires Valid() && FatEnd(fatbase, nFats, fsize) <= sect && sect + |data| <= |disk|
      requires !(sect <= winsect < sect + |data|)
      requires ValidSectors(data)
      modifies this`disk
      ensures Valid() && Fat() == old(Fat()) && disk == old(disk)[..sect] + data + old(disk)[sect + |data|..]
    {
      ghost var seen := View();
      disk := disk[..sect] + data + disk[sect + |data|..];
      FatFrame2(seen, View(), fatbase, fsize, sect);
    }

    method Fill(data: seq<byte>)
      requires win.Length == |data|
      modifies win
      ensures win[..] == data
    {
      forall i | 0 <= i < |data| {
        win[i] := data[i];
      }
    }

    // A byte of the FAT, when its sector is in the window
    method Peek(o: nat) returns (b: nat)
      requires Valid() && o < SS * fsize && winsect == fatbase + o / SS
      ensures b == Fat()[o] && b < 256
    {
      b := win[o % SS];
    }

    method Poke(o: nat, b: byte)
      requires Valid() && o < SS * fsize && winsect == fatbase + o / SS
      modifies this`wflag, win
      ensures Valid() && wflag && Fat() == old(Fat())[o := b] && Outside() == old(Outside()) && |disk| == |old(disk)|
    {
      hide FatBytes;
      ghost var seen := View();
      win[o % SS] := b;
      wflag := true;
      FatPoke(seen, View(), fatbase, fsize, o, b);
    }

    lemma EntryFits(c: nat)
      requires Valid() && c < nFatent
      ensures Offset(kind, c) + Touched(kind) <= SS * fsize
      ensures 0 <= Offset(kind, c)
    {
    }

    lemma AllFit()
      requires Valid()
      ensures nFatent >= 2 && Fits(kind, Fat(), nFatent)
    {
    }

    lemma SectorInDisk(o: nat)
      requires Valid() && o < SS * fsize
      ensures fatbase + o / SS < |disk|
    {
    }

    // get_fat
    method GetFat(c: nat) returns (v: nat)
      requires Valid()
      modifies this`disk, this`wflag, this`winsect, win
      ensures Valid() && OnlyFat() && Fat() == old(Fat())
      ensures v == if c < 2 || c >= nFatent then 1 else Entry(c)
    {
      hide Valid, FatBytes;
      if c < 2 || c >= nFatent {
        return 1;
      }
      EntryFits(c);
      match kind
      case Fat12 => v := Get12(c);
      case Fat16 => v := Get16(c);
      case Fat32 => v := Get32(c);
    }

    ghost function Entry(c: nat): nat
      requires Valid() && c < nFatent
      reads this, win
    {
      Load(kind, Fat(), c)
    }

    method Get12(c: nat) returns (v: nat)
      requires Valid() && kind == Fat12 && c < nFatent
      modifies this`disk, this`wflag, this`winsect, win
      ensures Valid() && OnlyFat() && Fat() == old(Fat())
      ensures v == Entry(c)
    {
      hide Valid, FatBytes, View;
      EntryFits(c);
      var bc := c + c / 2;
      SectorInDisk(bc);
      SectorInDisk(bc + 1);
      MoveWindow(fatbase + bc / SS);
      var b0 := Peek(bc);
      MoveWindow(fatbase + (bc + 1) / SS);
      var b1 := Peek(bc + 1);
      v := if c % 2 == 1 then b0 / 16 + b1 * 16 else b0 + b1 % 16 * 256;
    }

    method Get16(c: nat) returns (v: nat)
      requires Valid() && kind == Fat16 && c < nFatent
      modifies this`disk, this`wflag, this`winsect, win
      ensures Valid() && OnlyFat() && Fat() == old(Fat())
      ensures v == Entry(c)
    {
      hide Valid, FatBytes, View;
      EntryFits(c);
      SameSector2(c);
      SectorInDisk(2 * c);
      MoveWindow(fatbase + c / (SS / 2));
      var b0 := Peek(2 * c);
      var b1 := Peek(2 * c + 1);
      v := b0 + b1 * 0x100;
    }

    method Get32(c: nat) returns (v: nat)
      requires Valid() && kind == Fat32 && c < nFatent
      modifies this`disk, this`wflag, this`winsect, win
      ensures Valid() && OnlyFat() && Fat() == old(Fat())
      ensures v == Entry(c)
    {
      hide Valid, FatBytes, View, FromLe32;
      EntryFits(c);
      SameSector4(c);
      SectorInDisk(4 * c);
      MoveWindow(fatbase + c / (SS / 4));
      var word := PeekWord(4 * c);
      v := word % 0x1000_0000;
    }

    method PeekWord(o: nat) returns (v: nat)
      requires Valid() && o + 4 <= SS * fsize
      requires winsect == fatbase + o / SS == fatbase + (o + 1) / SS == fatbase + (o + 2) / SS == fatbase + (o + 3) / SS
      ensures v == FromLe32(Fat()[o..o + 4])
    {
      hide Valid, FatBytes, View;
      var b0 := Peek(o);
      var b1 := Peek(o + 1);
      var b2 := Peek(o + 2);
      var b3 := Peek(o + 3);
      assert Fat()[o..o + 4] == [b0, b1, b2, b3];
      v := FromLe32([b0, b1, b2, b3]);
    }

    // put_fat
    method PutFat(c: nat, v: nat) returns (ok: bool)
      requires Valid()
      modifies this`disk, this`wflag, this`winsect, win
      ensures Valid() && OnlyFat()
      ensures ok <==> 2 <= c < nFatent
      ensures Offset(kind, c) + Touched(kind) <= SS * fsize || !ok
      ensures Fat() == if ok then Store(kind, old(Fat()), c, v) else old(Fat())
    {
      hide Valid, FatBytes, Store;
      if c < 2 || c >= nFatent {
        return false;
      }
      EntryFits(c);
      ok := true;
      match kind
      case Fat12 => Put12(c, v);
      case Fat16 => Put16(c, v);
      case Fat32 => Put32(c, v);
    }

    method Put12(c: nat, v: nat)
      requires Valid() && kind == Fat12 && 2 <= c < nFatent
      modifies this`disk, this`wflag, this`winsect, win
      ensures Valid() && OnlyFat()
      ensures Offset(kind, c) + Touched(kind) <= SS * fsize && Fat() == Store(Fat12, old(Fat()), c, v)
    {
      hide Valid, FatBytes, View, First, Second;
      EntryFits(c);
      var bc := c + c / 2;
      PokeFar(bc, c, v, true);
      PokeFar(bc + 1, c, v, false);
    }

    // Half of a FAT12 entry, in whatever sector it is
    method PokeFar(o: nat, c: nat, v: nat, first: bool)
      requires Valid() && o < SS * fsize
      modifies this`disk, this`wflag, this`winsect, win
      ensures Valid() && OnlyFat()
      ensures Fat() ==
                old(Fat())[o := if first then First(Fat12, old(Fat())[o], c, v) else Second(Fat12, old(Fat())[o], c, v)]
    {
      hide Valid, FatBytes, View, First, Second;
      SectorInDisk(o);
      MoveWindow(fatbase + o / SS);
      var b := Peek(o);
      Poke(o, if first then First(Fat12, b, c, v) else Second(Fat12, b, c, v));
    }

    method Put16(c: nat, v: nat)
      requires Valid() && kind == Fat16 && 2 <= c < nFatent
      modifies this`disk, this`wflag, this`winsect, win
      ensures Valid() && OnlyFat()
      ensures Offset(kind, c) + Touched(kind) <= SS * fsize && Fat() == Store(Fat16, old(Fat()), c, v)
    {
      hide Valid, FatBytes, View;
      EntryFits(c);
      SameSector2(c);
      SectorInDisk(2 * c);
      MoveWindow(fatbase + c / (SS / 2));
      Poke(2 * c, v % 256);
      Poke(2 * c + 1, v / 256 % 256);
    }

    method Put32(c: nat, v: nat)
      requires Valid() && kind == Fat32 && 2 <= c < nFatent
      modifies this`disk, this`wflag, this`winsect, win
      ensures Valid() && OnlyFat()
      ensures Offset(kind, c) + Touched(kind) <= SS * fsize && Fat() == Store(Fat32, old(Fat()), c, v)
    {
      hide Valid, FatBytes, View, Store;
      EntryFits(c);
      SameSector4(c);
      SectorInDisk(4 * c);
      MoveWindow(fatbase + c / (SS / 4));
      var top := Peek(4 * c + 3);
      StoreIs32(Fat(), c, v);
      PokeWord(4 * c, v, top);
    }

    method PokeWord(o: nat, v: nat, top: nat)
      requires Valid() && o + 4 <= SS * fsize && top < 256
      requires winsect == fatbase + o / SS == fatbase + (o + 1) / SS == fatbase + (o + 2) / SS == fatbase + (o + 3) / SS
      modifies this`wflag, win
      ensures Valid() && OnlyFat()
      ensures Fat() == old(Fat())[o := v % 256][o + 1 := v / 256 % 256][o + 2 := v / 0x1_0000 % 256]
                       [o + 3 := v / 0x100_0000 % 16 + top / 16 * 16]
    {
      hide Valid, FatBytes, View;
      Poke(o, v % 256);
      Poke(o + 1, v / 256 % 256);
      Poke(o + 2, v / 0x1_0000 % 256);
      Poke(o + 3, v / 0x100_0000 % 16 + top / 16 * 16);
    }
  }

  lemma StoreIs32(fat: seq<byte>, c: nat, v: nat)
    requires 4 * c + 4 <= |fat|
    ensures Store(Fat32, fat, c, v) ==
              fat[4 * c := v % 256][4 * c + 1 := v / 256 % 256][4 * c + 2 := v / 0x1_0000 % 256]
                                          [4 * c + 3 := v / 0x100_0000 % 16 + fat[4 * c + 3] / 16 * 16]
  {
  }

  // An aligned word does not straddle sectors.
  lemma SameSector2(c: nat)
    ensures 2 * c / SS == (2 * c + 1) / SS == c / (SS / 2)
  {
    var q, r := c / 256, c % 256;
    assert 2 * c == 512 * q + 2 * r;
  }

  lemma SameSector4(c: nat)
    ensures 4 * c / SS == (4 * c + 1) / SS == (4 * c + 2) / SS == (4 * c + 3) / SS == c / (SS / 4)
  {
    var q, r := c / 128, c % 128;
    assert 4 * c == 512 * q + 4 * r;
  }
}
