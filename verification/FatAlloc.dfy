// Allocating and freeing clusters in the FAT of a volume.

module FatAlloc {
  import opened Bytes
  import opened FatEntry
  import opened FatVolume
  import opened FatChain

  class Allocator {
    const vol: Volume
    // fs->free_clst (more than all clusters if unknown), fs->last_clst and
    // the dirty bit of fs->fsi_flag
    var freeClst: nat
    var lastClst: nat
    var fsiDirty: bool

    // The FAT as a table
    ghost function Table(): (e: seq<nat>)
      requires vol.Valid()
      reads vol, vol.win
      ensures |e| == vol.nFatent
    {
      vol.AllFit();
      EntriesOf(vol.kind, vol.Fat(), vol.nFatent)
    }

    ghost predicate Shape()
      reads this, vol, vol.win
    {
      vol.Valid() && vol.nFatent < Limit(vol.kind)
    }

    ghost predicate Valid()
      reads this, vol, vol.win
    {
      Shape() && Accurate(freeClst, Table())
    }

    constructor (vol: Volume, freeClst: nat, lastClst: nat)
      requires vol.Valid() && vol.nFatent < Limit(vol.kind)
      requires Fits(vol.kind, vol.Fat(), vol.nFatent) && Accurate(freeClst, EntriesOf(vol.kind, vol.Fat(), vol.nFatent))
      ensures Valid() && this.vol == vol && this.freeClst == freeClst
    {
      this.vol, this.freeClst, this.lastClst, fsiDirty := vol, freeClst, lastClst, false;
    }

    method Get(c: nat) returns (v: nat)
      requires vol.Valid()
      modifies vol, vol.win
      ensures vol.Valid() && vol.OnlyFat() && Table() == old(Table())
      ensures v == if 2 <= c < vol.nFatent then Table()[c] else 1
    {
      hide Volume.Valid, EntriesOf, Load;
      v := vol.GetFat(c);
      if 2 <= c < vol.nFatent {
        vol.AllFit();
        assert Table()[c] == Load(vol.kind, vol.Fat(), c);
      }
    }

    method Put(c: nat, v: nat) returns (ok: bool)
      requires vol.Valid()
      modifies vol, vol.win
      ensures vol.Valid() && vol.OnlyFat() && (ok <==> 2 <= c < vol.nFatent)
      ensures Table() == if ok then old(Table())[c := v % Limit(vol.kind)] else old(Table())
    {
      hide Volume.Valid, EntriesOf, Load, Store;
      vol.AllFit();
      ghost var fat := vol.Fat();
      ok := vol.PutFat(c, v);
      if ok {
        vol.AllFit();
        StoreEntries(vol.kind, fat, vol.nFatent, c, v);
      }
    }

    // Writing data sectors leaves the table alone.
    method WriteData(sect: nat, data: seq<seq<byte>>)
      requires vol.Valid() && Valid() && FatEnd(vol.fatbase, vol.nFats, vol.fsize) <= sect
      requires sect + |data| <= |vol.disk|
      requires !(sect <= vol.winsect < sect + |data|) && ValidSectors(data)
      modifies vol`disk
      ensures vol.Valid() && Valid() && Table() == old(Table())
      ensures vol.disk == old(vol.disk)[..sect] + data + old(vol.disk)[sect + |data|..]
    {
      hide Volume.Valid, EntriesOf, Accurate;
      vol.WriteSectors(sect, data);
    }

    // The search of create_chain for a free cluster, from the one after scl
    // around to scl itself: 0 if there is none, 1 if an entry is invalid
    method Search(scl: nat) returns (ncl: nat)
      requires vol.Valid() && 1 <= scl < vol.nFatent
      modifies vol, vol.win
      ensures vol.Valid() && vol.OnlyFat() && Table() == old(Table())
      ensures ncl == 0 ==> AllUsed(Table())
      ensures ncl == 1 ==> SomeInvalid(Table())
      ensures ncl >= 2 ==> ncl < vol.nFatent && Table()[ncl] == 0
    {
      hide Table;
      hide Volume.Valid;
      ncl := scl;
      ghost var e, wrapped := Table(), false;
      while true
        invariant vol.Valid() && vol.OnlyFat() && Table() == e && 1 <= ncl < vol.nFatent
        invariant !wrapped ==> scl <= ncl && forall c :: scl < c <= ncl ==> e[c] != 0
        invariant wrapped ==>
                  ncl < scl && (forall c :: scl < c < |e| ==> e[c] != 0) && forall c :: 2 <= c <= ncl ==> e[c] != 0
        decreases !wrapped, if wrapped then scl - ncl else vol.nFatent - ncl
      {
        ncl := ncl + 1;
        if ncl >= vol.nFatent {
          ncl := 2;
          wrapped := true;
          if ncl > scl {
            return 0;
          }
        }
        var cs := Get(ncl);
        if cs == 0 {
          return;
        }
        if cs == 1 {
          return 1;
        }
        if ncl == scl {
          return 0;
        }
      }
    }

    // A free cluster for the chain that ends in clst, preferably the next one
    method FindFree(clst: nat, scl0: nat) returns (ncl: nat)
      requires vol.Valid() && 1 <= scl0 < vol.nFatent && (clst != 0 ==> scl0 == clst >= 2)
      modifies vol, vol.win
      ensures vol.Valid() && vol.OnlyFat() && Table() == old(Table())
      ensures ncl == 0 ==> AllUsed(Table())
      ensures ncl == 1 ==> SomeInvalid(Table())
      ensures ncl >= 2 ==> ncl < vol.nFatent && Table()[ncl] == 0
    {
      hide Table;
      hide Volume.Valid;
      var scl := scl0;
      if scl == clst {
        ncl := scl + 1;
        if ncl >= vol.nFatent {
          ncl := 2;
        }
        var cs := Get(ncl);
        if cs == 1 {
          return 1;
        }
        if cs == 0 {
          return;
        }
        cs := lastClst;
        if 2 <= cs < vol.nFatent {
          scl := cs;
        }
      }
      ncl := Search(scl);
    }

    // Link the cluster ncl and update the allocation information.
    method Link(clst: nat, ncl: nat)
      requires Valid() && 2 <= ncl < vol.nFatent && Table()[ncl] == 0
      requires clst == 0 || (2 <= clst < vol.nFatent && Table()[clst] != 0)
      modifies this`freeClst, this`lastClst, this`fsiDirty, vol, vol.win
      ensures Valid() && vol.OnlyFat()
      ensures Table() == var e := old(Table())[ncl := Limit(vol.kind) - 1]; if clst == 0 then e else e[clst := ncl]
    {
      hide Table, FreeCount;
      hide Volume.Valid;
      ghost var e := Table();
      FreeBound(e, |e|);
      FreeUpdate(e, ncl, Limit(vol.kind) - 1, |e|);
      AllOnes(vol.kind);
      var ok := Put(ncl, 0xFFFF_FFFF);
      if clst != 0 {
        FreeUpdate(Table(), clst, ncl, |e|);
        SmallMod(ncl, Limit(vol.kind));
        ok := Put(clst, ncl);
      }
      lastClst := ncl;
      if 0 < freeClst <= vol.nFatent - 2 {
        freeClst := freeClst - 1;
        fsiDirty := true;
      }
    }

    // create_chain
    method CreateChain(clst: nat) returns (r: nat)
      requires Valid()
      modifies this`freeClst, this`lastClst, this`fsiDirty, vol, vol.win
      ensures Valid() && vol.OnlyFat() && Created(old(Table()), clst, r, Table(), Limit(vol.kind) - 1)
    {
      hide Table, FreeCount;
      hide Volume.Valid;
      var scl;
      if clst == 0 {
        scl := lastClst;
        if scl == 0 || scl >= vol.nFatent {
          scl := 1;
        }
      } else {
        var cs := Get(clst);
        if cs < 2 {
          return 1;
        }
        if cs < vol.nFatent {
          return cs;
        }
        scl := clst;
      }
      if freeClst == 0 {
        FreeBound(Table(), |Table()|);
        return 0;
      }
      r := FindFree(clst, scl);
      if r >= 2 {
        Link(clst, r);
      }
    }

    // Mark one cluster free.
    method Release(clst: nat)
      requires Shape() && 2 <= clst < vol.nFatent && Table()[clst] != 0
      modifies this`freeClst, this`fsiDirty, vol, vol.win
      ensures Shape() && vol.OnlyFat() && Table() == old(Table())[clst := 0]
      ensures old(Valid()) ==> Valid()
      ensures old(OneMore(freeClst, Table())) ==> OneMore(freeClst, Table())
      ensures Unknown(freeClst, Table()) <==> old(Unknown(freeClst, Table()))
    {
      hide Table, FreeCount;
      hide Volume.Valid;
      ghost var e := Table();
      FreeBound(e, |e|);
      FreeBound(e[clst := 0], |e|);
      FreeUpdate(e, clst, 0, |e|);
      SmallMod(0, Limit(vol.kind));
      var ok := Put(clst, 0);
      if freeClst < vol.nFatent - 2 {
        freeClst := freeClst + 1;
        fsiDirty := true;
      }
    }

    // Free the clusters from clst on; any table lets it end, as every round
    // leaves one more entry zero.
    method ReleaseAll(clst0: nat) returns (ok: bool)
      requires Shape() && 2 <= clst0 < vol.nFatent
      modifies this`freeClst, this`fsiDirty, vol, vol.win
      ensures Shape() && vol.OnlyFat() && ok == !WalkFails(old(Table()), clst0)
      ensures Table() == Clear(old(Table()), Walk(old(Table()), clst0))
      ensures old(Valid()) ==> Valid()
      ensures old(OneMore(freeClst, Table())) ==> OneMore(freeClst, Table())
      ensures Unknown(freeClst, Table()) <==> old(Unknown(freeClst, Table()))
    {
      hide Table, FreeCount, Clear, Free, OneMore, Unknown;
      hide Volume.Valid;
      var clst := clst0;
      ghost var done, fails := Clear(Table(), Walk(Table(), clst0)), WalkFails(Table(), clst0);
      while true
        invariant Shape() && vol.OnlyFat() && 2 <= clst < vol.nFatent && (old(Valid()) ==> Valid())
        invariant old(OneMore(freeClst, Table())) ==> OneMore(freeClst, Table())
        invariant Unknown(freeClst, Table()) <==> old(Unknown(freeClst, Table()))
        invariant Clear(Table(), Walk(Table(), clst)) == done && WalkFails(Table(), clst) == fails
        decreases Used(Table())
      {
        ghost var e := Table();
        var nxt := Get(clst);
        if nxt < 2 {
          ClearNothing(e);
          return nxt == 0;
        }
        WalkStep(e, clst);
        Release(clst);
        clst := nxt;
        if clst >= vol.nFatent {
          ClearNothing(Table());
          return true;
        }
      }
    }

    // remove_chain: pclst is the cluster before clst, or 0.  It marks pclst as
    // used without counting that.
    method RemoveChain(clst: nat, pclst: nat) returns (ok: bool)
      requires Shape()
      modifies this`freeClst, this`fsiDirty, vol, vol.win
      ensures Shape() && vol.OnlyFat()
      ensures old(Valid()) ==>
                (Valid() <==> old(Unknown(freeClst, Table()) || !FreeBefore(Table(), clst, pclst)) || AllFree(Table()))
      ensures old(Valid() && !Unknown(freeClst, Table()) && FreeBefore(Table(), clst, pclst)) ==>
                OneMore(freeClst, Table())
      ensures var e, n := old(Table()), vol.nFatent;
        if clst < 2 || clst >= n || pclst == 1 || pclst >= n then !ok && Table() == e
        else
          var e1 := if pclst == 0 then e else e[pclst := Limit(vol.kind) - 1];
          ok == !WalkFails(e1, clst) && Table() == Clear(e1, Walk(e1, clst))
    {
      hide Table, FreeCount, Clear, Walk, WalkFails;
      hide Volume.Valid;
      if clst < 2 || clst >= vol.nFatent {
        return false;
      }
      ghost var e, k := Table(), freeClst;
      if pclst != 0 {
        AllOnes(vol.kind);
        ok := Put(pclst, 0xFFFF_FFFF);
        if !ok {
          return;
        }
        if Accurate(k, e) {
          UncountedUse(k, e, pclst, Limit(vol.kind) - 1);
        }
      }
      ok := ReleaseAll(clst);
      CountAfter(freeClst, Table());
    }

    // What f_truncate does to the FAT: it reads the link before it cuts, and so
    // never cuts behind a free cluster.
    method CutBehind(clust: nat) returns (ok: bool)
      requires Valid()
      modifies this`freeClst, this`fsiDirty, vol, vol.win
      ensures Valid() && vol.OnlyFat()
      ensures var e, n := old(Table()), vol.nFatent;
        if 2 <= clust < n && 2 <= e[clust] < n then
          var e1 := e[clust := Limit(vol.kind) - 1];
          ok == !WalkFails(e1, e[clust]) && Table() == Clear(e1, Walk(e1, e[clust]))
        else Table() == e && (ok <==> 2 <= clust < n && e[clust] >= n)
    {
      hide Table, FreeCount, Clear, Walk, WalkFails;
      hide Volume.Valid;
      var ncl := Get(clust);
      if ncl == 1 {
        return false;
      }
      ok := true;
      if ncl < vol.nFatent {
        ok := RemoveChain(ncl, clust);
      }
    }
  }

  // The free count is not known.
  predicate Unknown(freeClst: nat, e: seq<nat>) {
    |e| >= 2 && freeClst > |e| - 2
  }

  // A call with these clusters marks a free one as used.
  predicate FreeBefore(e: seq<nat>, clst: nat, pclst: nat) {
    2 <= clst < |e| && 2 <= pclst < |e| && e[pclst] == 0
  }

  ghost predicate AllFree(e: seq<nat>) {
    forall c :: 2 <= c < |e| ==> e[c] == 0
  }

  // A known count that is one too high, as long as there is room for that
  predicate OneMore(freeClst: nat, e: seq<nat>) {
    |e| >= 2 && freeClst == if Free(e) < |e| - 2 then Free(e) + 1 else Free(e)
  }

  // Marking a cluster as used without counting it keeps a known count right
  // exactly when it was in use before, and leaves it one too high otherwise.
  lemma UncountedUse(freeClst: nat, e: seq<nat>, c: nat, v: nat)
    requires 2 <= c < |e| && v != 0 && Accurate(freeClst, e)
    ensures Unknown(freeClst, e[c := v]) <==> Unknown(freeClst, e)
    ensures !Unknown(freeClst, e) ==> (Accurate(freeClst, e[c := v]) <==> e[c] != 0)
    ensures if Unknown(freeClst, e) || e[c] != 0 then Accurate(freeClst, e[c := v]) else OneMore(freeClst, e[c := v])
  {
    FreeUpdate(e, c, v, |e|);
    FreeBound(e, |e|);
  }

  // A count that is one too high is right only when every cluster is free.
  lemma CountAfter(freeClst: nat, e: seq<nat>)
    requires |e| >= 2
    ensures OneMore(freeClst, e) ==> !Unknown(freeClst, e) && (Accurate(freeClst, e) <==> AllFree(e))
  {
    FreeBound(e, |e|);
    if AllFree(e) {
      AllFreeCount(e, |e|);
    }
  }

  lemma {:induction false} AllFreeCount(e: seq<nat>, k: nat)
    requires 2 <= k <= |e| && AllFree(e)
    ensures FreeCount(e, k) == k - 2
  {
    if k > 2 {
      AllFreeCount(e, k - 1);
    }
  }

  // FAT12 with two clusters, both free
  method TwoFree() returns (a: Allocator)
    ensures fresh(a) && fresh(a.vol) && fresh(a.vol.win) && a.Valid() && a.freeClst == 2
    ensures a.vol.kind == Fat12 && a.vol.nFatent == 4 && a.Table() == [0, 0, 0, 0]
  {
    var sector: seq<byte> := seq(SS, _ => 0);
    var vol := new Volume(Fat12, 0, 1, 1, 4, [sector]);
    ZeroEntries(FatBytes([sector], 0, 1));
    AllFreeCount([0, 0, 0, 0], 4);
    hide EntriesOf, FatBytes, Load, FreeCount;
    hide Volume.Valid;
    a := new Allocator(vol, 2, 4);
  }

  lemma ZeroEntries(fat: seq<byte>)
    requires |fat| == SS && forall i :: 0 <= i < SS ==> fat[i] == 0
    ensures EntriesOf(Fat12, fat, 4) == [0, 0, 0, 0]
  {
  }

  // Removing a chain at the first of them, with the second one in front of it,
  // leaves one free and the count at two.
  method FreePrevious() returns (a: Allocator)
    ensures a.Shape() && a.Table() == [0, 0, 0, 0xFFF]
    ensures a.freeClst == 2 && Free(a.Table()) == 1
  {
    a := TwoFree();
    hide Allocator.Table;
    hide Volume.Valid;
    hide FreeCount, Clear, Walk, WalkFails;
    var ok := a.RemoveChain(2, 3);
    SecondUsed();
  }

  lemma SecondUsed()
    ensures [0, 0, 0, 0][3 := 0xFFF] == [0, 0, 0, 0xFFF]
    ensures Clear([0, 0, 0, 0xFFF], Walk([0, 0, 0, 0xFFF], 2)) == [0, 0, 0, 0xFFF]
    ensures FreeCount([0, 0, 0, 0xFFF], 4) == 1
  {
    AllFreeCount([0, 0, 0, 0], 4);
    FreeUpdate([0, 0, 0, 0], 3, 0xFFF, 4);
    assert [0, 0, 0, 0][3 := 0xFFF] == [0, 0, 0, 0xFFF];
  }

  lemma AllOnes(kind: Kind)
    ensures 0xFFFF_FFFF % Limit(kind) == Limit(kind) - 1
  {
  }

  lemma SmallMod(a: nat, n: nat)
    requires a < n
    ensures a % n == a
  {
  }

  ghost predicate AllUsed(e: seq<nat>) {
    forall c :: 2 <= c < |e| ==> e[c] != 0
  }

  ghost predicate SomeInvalid(e: seq<nat>) {
    exists c :: 2 <= c < |e| && e[c] == 1
  }
}
