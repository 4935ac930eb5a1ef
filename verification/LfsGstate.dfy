// The global state of littlefs: a value spread over all metadata pairs, each
// holding a share, whose exclusive-or is the state on disk.

module LfsGstate {
  import opened Bytes
  import Bits

  datatype GState = GState(tag: nat, pair0: nat, pair1: nat)

  const ZERO := GState(0, 0, 0)

  predicate Valid(g: GState) {
    g.tag < 0x1_0000_0000 && g.pair0 < 0x1_0000_0000 && g.pair1 < 0x1_0000_0000
  }

  lemma WordsValid(a: GState, b: GState)
    ensures Valid(a) && Valid(b) ==>
              Valid(GState(Bits.Xor(a.tag, b.tag), Bits.Xor(a.pair0, b.pair0), Bits.Xor(a.pair1, b.pair1)))
  {
    if Valid(a) && Valid(b) {
      Bits.Pow2Values();
      Bits.XorBound(a.tag, b.tag, 32);
      Bits.XorBound(a.pair0, b.pair0, 32);
      Bits.XorBound(a.pair1, b.pair1, 32);
    }
  }

  // lfs_gstate_xor
  function Xor(a: GState, b: GState): (r: GState)
    ensures Valid(a) && Valid(b) ==> Valid(r)
  {
    WordsValid(a, b);
    GState(Bits.Xor(a.tag, b.tag), Bits.Xor(a.pair0, b.pair0), Bits.Xor(a.pair1, b.pair1))
  }

  // The size bits of the tag count orphans; they are never stored on disk.
  function Masked(g: GState): GState {
    g.(tag := Bits.ClearLow(g.tag, 10))
  }

  // Two states that differ in the number of orphans at most
  predicate SameState(a: GState, b: GState) {
    a.tag / 0x400 == b.tag / 0x400 && a.pair0 == b.pair0 && a.pair1 == b.pair1
  }

  // A state without orphans
  predicate NoOrphans(g: GState) {
    g.tag % 0x400 == 0
  }

  // Masking takes the orphans away and nothing else.
  lemma MaskedIs(a: GState, b: GState)
    ensures NoOrphans(Masked(a)) && SameState(Masked(a), a) && (NoOrphans(a) <==> Masked(a) == a)
    ensures Masked(a) == Masked(b) <==> SameState(a, b)
  {
    Bits.ClearLowIs(a.tag, 10);
    Bits.ClearLowIs(b.tag, 10);
    Bits.Pow2Values();
    hide Bits.Pow2, Bits.ClearLow;
  }

  lemma XorAssoc(a: GState, b: GState, c: GState)
    ensures Xor(Xor(a, b), c) == Xor(a, Xor(b, c))
  {
    Bits.XorAssoc(a.tag, b.tag, c.tag);
    Bits.XorAssoc(a.pair0, b.pair0, c.pair0);
    Bits.XorAssoc(a.pair1, b.pair1, c.pair1);
  }

  lemma XorComm(a: GState, b: GState)
    ensures Xor(a, b) == Xor(b, a)
  {
    Bits.XorComm(a.tag, b.tag);
    Bits.XorComm(a.pair0, b.pair0);
    Bits.XorComm(a.pair1, b.pair1);
  }

  lemma XorSelf(a: GState)
    ensures Xor(a, a) == ZERO && Xor(a, ZERO) == a && Xor(ZERO, a) == a
  {
    Bits.XorSelf(a.tag);
    Bits.XorSelf(a.pair0);
    Bits.XorSelf(a.pair1);
    Bits.XorZero(a.tag);
    Bits.XorZero(a.pair0);
    Bits.XorZero(a.pair1);
    XorComm(a, ZERO);
  }

  // ---- On disk ----------------------------------------------------------

  function Encode(g: GState): (data: seq<byte>)
    requires Valid(g)
    ensures |data| == 12
  {
    Le32(g.tag) + Le32(g.pair0) + Le32(g.pair1)
  }

  // The state is read into a buffer of twelve bytes.
  function Decode(data: seq<byte>): (g: GState)
    ensures Valid(g)
  {
    var b := Fit(data, 12);
    ToFromLe32(b[0..4]);
    ToFromLe32(b[4..8]);
    ToFromLe32(b[8..12]);
    GState(FromLe32(b[0..4]), FromLe32(b[4..8]), FromLe32(b[8..12]))
  }

  lemma DecodeEncode(g: GState)
    requires Valid(g)
    ensures Decode(Encode(g)) == g
  {
    var data := Encode(g);
    assert Fit(data, 12) == data;
    assert data[0..4] == Le32(g.tag) && data[4..8] == Le32(g.pair0) && data[8..12] == Le32(g.pair1);
    FromToLe32(g.tag);
    FromToLe32(g.pair0);
    FromToLe32(g.pair1);
  }

  lemma MaskedXor(a: GState, b: GState)
    ensures Masked(Xor(a, b)) == Xor(Masked(a), Masked(b))
  {
    Bits.XorClearLow(a.tag, b.tag, 10);
  }

  lemma MaskedTwice(a: GState)
    ensures Masked(Masked(a)) == Masked(a)
  {
    Bits.ClearLowTwice(a.tag, 10);
  }

  // ---- Shares --------------------------------------------------------------

  function Total(shares: seq<GState>): GState {
    if shares == [] then ZERO else Xor(shares[0], Total(shares[1..]))
  }

  lemma {:induction false} TotalConcat(s: seq<GState>, t: seq<GState>)
    ensures Total(s + t) == Xor(Total(s), Total(t))
  {
    if s == [] {
      assert s + t == t;
      XorSelf(Total(t));
    } else {
      assert (s + t)[1..] == s[1..] + t;
      TotalConcat(s[1..], t);
      XorAssoc(s[0], Total(s[1..]), Total(t));
    }
  }

  // Exclusive-oring d into one share does so to the total.
  lemma {:induction false} TotalUpdate(s: seq<GState>, i: nat, d: GState)
    requires i < |s|
    ensures Total(s[i := Xor(s[i], d)]) == Xor(Total(s), d)
  {
    var v := Xor(s[i], d);
    if i == 0 {
      assert s[i := v][1..] == s[1..];
      XorAssoc(s[0], d, Total(s[1..]));
      XorComm(d, Total(s[1..]));
      XorAssoc(s[0], Total(s[1..]), d);
    } else {
      assert s[i := v][1..] == s[1..][i - 1 := v];
      TotalUpdate(s[1..], i - 1, d);
      XorAssoc(s[0], Total(s[1..]), d);
    }
  }

  // A new pair carrying d, or one carrying d taken away
  lemma {:induction false} TotalInsert(s: seq<GState>, i: nat, d: GState)
    requires i <= |s|
    ensures Total(s[..i] + [d] + s[i..]) == Xor(Total(s), d)
  {
    assert s == s[..i] + s[i..];
    TotalConcat(s[..i], s[i..]);
    TotalConcat(s[..i] + [d], s[i..]);
    TotalConcat(s[..i], [d]);
    assert [d][1..] == [];
    assert Total([d]) == Xor(d, ZERO);
    XorSelf(d);
    XorAssoc(Total(s[..i]), d, Total(s[i..]));
    XorComm(d, Total(s[i..]));
    XorAssoc(Total(s[..i]), Total(s[i..]), d);
  }

  lemma Rearrange(a: GState, b: GState, c: GState)
    ensures Xor(Xor(a, b), Xor(Xor(c, a), b)) == c
  {
    XorComm(c, a);
    XorAssoc(a, c, b);
    XorComm(c, b);
    XorAssoc(a, b, c);
    var ab := Xor(a, b);
    XorAssoc(ab, ab, c);
    XorSelf(ab);
    XorSelf(c);
  }

  lemma Recover(t: GState, b: GState, a: GState)
    requires Xor(t, b) == a
    ensures t == Xor(a, b)
  {
    XorAssoc(t, b, b);
    XorSelf(b);
    XorSelf(t);
  }

  // Adding the difference, without its orphans, to the shares turns the state
  // on disk into g.
  lemma Balance(total: GState, g: GState, gdisk: GState, gdelta: GState)
    requires SameState(Xor(total, gdelta), gdisk)
    ensures SameState(Xor(total, Masked(Xor(Xor(g, gdisk), gdelta))), g)
  {
    var delta := Masked(Xor(Xor(g, gdisk), gdelta));
    MaskedIs(Xor(total, gdelta), gdisk);
    MaskedIs(Xor(total, delta), g);
    MaskedXor(total, gdelta);
    MaskedBalance(total, g, gdisk, gdelta);
  }

  lemma MaskedBalance(total: GState, g: GState, gdisk: GState, gdelta: GState)
    requires Xor(Masked(total), Masked(gdelta)) == Masked(gdisk)
    ensures Masked(Xor(total, Masked(Xor(Xor(g, gdisk), gdelta)))) == Masked(g)
  {
    var delta := Xor(Xor(g, gdisk), gdelta);
    MaskedXor(total, Masked(delta));
    MaskedTwice(delta);
    MaskedXor(Xor(g, gdisk), gdelta);
    MaskedXor(g, gdisk);
    Recover(Masked(total), Masked(gdelta), Masked(gdisk));
    Rearrange(Masked(gdisk), Masked(gdelta), Masked(g));
  }

  lemma CompactDelta(gstate: GState, gdisk: GState, gdelta: GState, relocated: bool)
    ensures Xor(if relocated then ZERO else Xor(Xor(ZERO, gdisk), gstate), gdelta) ==
            Xor(Xor(if relocated then gdisk else gstate, gdisk), gdelta)
  {
    XorSelf(gdisk);
    XorComm(gdisk, gstate);
  }

  // Stealing the share of a pair that leaves the list loses nothing.
  lemma Steal(total: GState, stolen: GState, gdelta: GState)
    ensures Xor(total, Xor(gdelta, stolen)) == Xor(Xor(total, stolen), gdelta)
  {
    XorAssoc(total, stolen, gdelta);
    XorComm(stolen, gdelta);
  }

  lemma XorNoOrphans(a: GState, b: GState)
    requires NoOrphans(a) && NoOrphans(b)
    ensures NoOrphans(Xor(a, b))
  {
    MaskedXor(a, b);
    MaskedIs(a, b);
    MaskedIs(b, a);
    MaskedIs(Xor(a, b), a);
  }

  lemma {:induction false} TotalNoOrphans(shares: seq<GState>)
    requires forall i :: 0 <= i < |shares| ==> NoOrphans(shares[i])
    ensures NoOrphans(Total(shares))
  {
    if shares != [] {
      TotalNoOrphans(shares[1..]);
      XorNoOrphans(shares[0], Total(shares[1..]));
    }
  }

  predicate AllNoOrphans(shares: seq<GState>) {
    forall i :: 0 <= i < |shares| ==> NoOrphans(shares[i])
  }

  // The difference added to one share
  lemma Settles(shares: seq<GState>, i: nat, g: GState, gdisk: GState, gdelta: GState)
    requires AllNoOrphans(shares) && SameState(Xor(Total(shares), gdelta), gdisk) && i < |shares|
    ensures var after := shares[i := Xor(shares[i], Masked(Xor(Xor(g, gdisk), gdelta)))];
      AllNoOrphans(after) && NoOrphans(Total(after)) && SameState(Total(after), g) &&
        Xor(Total(after), ZERO) == Total(after)
  {
    var delta := Masked(Xor(Xor(g, gdisk), gdelta));
    var after := shares[i := Xor(shares[i], delta)];
    MaskedIs(Xor(Xor(g, gdisk), gdelta), ZERO);
    XorNoOrphans(shares[i], delta);
    TotalUpdate(shares, i, delta);
    Balance(Total(shares), g, gdisk, gdelta);
    TotalNoOrphans(after);
    XorSelf(Total(after));
  }

  // The difference in a share of its own
  lemma SettlesNew(shares: seq<GState>, i: nat, g: GState, gdisk: GState, gdelta: GState)
    requires AllNoOrphans(shares) && SameState(Xor(Total(shares), gdelta), gdisk) && i <= |shares|
    ensures var after := shares[..i] + [Masked(Xor(Xor(g, gdisk), gdelta))] + shares[i..];
      AllNoOrphans(after) && NoOrphans(Total(after)) && SameState(Total(after), g) &&
        Xor(Total(after), ZERO) == Total(after)
  {
    var delta := Masked(Xor(Xor(g, gdisk), gdelta));
    MaskedIs(Xor(Xor(g, gdisk), gdelta), ZERO);
    TotalInsert(shares, i, delta);
    Balance(Total(shares), g, gdisk, gdelta);
    var after := shares[..i] + [delta] + shares[i..];
    hide NoOrphans;
    assert AllNoOrphans(after);
    TotalNoOrphans(after);
    XorSelf(Total(after));
  }

  lemma SettledChange(g: GState)
    ensures Masked(Xor(Xor(g, g), ZERO)) == ZERO
  {
    XorSelf(g);
    XorSelf(ZERO);
  }

  // ---- The three copies in memory --------------------------------------------

  // `gstate` is the state wanted, `gdisk` the one last written, `gdelta` what
  // was taken over from dropped pairs.  `shares` are those of the pairs on the
  // tail list, in order.
  class Global {
    var gstate: GState
    var gdisk: GState
    var gdelta: GState
    var shares: seq<GState>

    // Nothing gets lost: the shares and the delta make up the state on disk.
    ghost predicate Conserved()
      reads this
    {
      && AllNoOrphans(shares)
      && SameState(Xor(Total(shares), gdelta), gdisk)
    }

    // The state on disk is the state wanted.
    ghost predicate Settled()
      reads this
    {
      && SameState(Total(shares), gstate) && NoOrphans(Total(shares))
      && gdelta == ZERO && gdisk == gstate
    }

    // What a commit adds to a share to make the state on disk become g
    ghost function Change(g: GState): GState
      reads this
    {
      Masked(Xor(Xor(g, gdisk), gdelta))
    }

    // lfs_dir_relocatingcommit, appending to pair i
    method Append(i: nat)
      requires Conserved() && i < |shares|
      modifies this`shares, this`gdisk, this`gdelta
      ensures Conserved() && Settled()
      ensures shares == old(shares)[i := Xor(old(shares)[i], old(Change(gstate)))]
    {
      hide Xor, Masked, Total, SameState, NoOrphans, AllNoOrphans;
      var delta := Masked(Xor(Xor(gstate, gdisk), gdelta));
      Settles(shares, i, gstate, gdisk, gdelta);
      if delta != ZERO {
        // bring over what the pair holds already
        shares := shares[i := Xor(shares[i], delta)];
      } else {
        XorSelf(shares[i]);
        assert shares[i := shares[i]] == shares;
      }
      gdisk := gstate;
      gdelta := ZERO;
    }

    // lfs_dir_compact on pair i.  A relocated pair keeps out of the state and
    // only passes on what was taken over.
    method Compact(i: nat, relocated: bool)
      requires Conserved() && i < |shares|
      modifies this`shares, this`gdisk, this`gdelta
      ensures Conserved() && gdelta == ZERO
      ensures if relocated then gdisk == old(gdisk) else Settled()
      ensures shares == old(shares)[i := Xor(old(shares)[i], old(Change(if relocated then gdisk else gstate)))]
    {
      hide Xor, Masked, Total, SameState, NoOrphans, AllNoOrphans;
      ghost var g := if relocated then gdisk else gstate;
      var delta := ZERO;
      if !relocated {
        delta := Xor(Xor(delta, gdisk), gstate);
      }
      delta := Masked(Xor(delta, gdelta));
      CompactDelta(gstate, gdisk, gdelta, relocated);
      Settles(shares, i, g, gdisk, gdelta);
      XorComm(shares[i], delta);
      // a zero share is not written, and reads back as zero
      delta := Xor(delta, shares[i]);
      shares := shares[i := delta];
      gdelta := ZERO;
      if !relocated {
        gdisk := gstate;
      }
    }

    // lfs_dir_split: the new pair behind pair i takes the whole difference,
    // and pair i is compacted with none left.
    method Split(i: nat)
      requires Conserved() && i < |shares|
      modifies this`shares, this`gdisk, this`gdelta
      ensures Conserved() && Settled()
      ensures shares == old(shares)[..i + 1] + [old(Change(gstate))] + old(shares)[i + 1..]
    {
      hide Xor, Masked, Total, SameState, NoOrphans, AllNoOrphans;
      var delta := Masked(Xor(Xor(Xor(ZERO, gdisk), gstate), gdelta));
      CompactDelta(gstate, gdisk, gdelta, false);
      SettlesNew(shares, i + 1, gstate, gdisk, gdelta);
      shares := shares[..i + 1] + [delta] + shares[i + 1..];
      gdisk := gstate;
      gdelta := ZERO;
      SettledChange(gstate);
      XorSelf(shares[i]);
      Compact(i, false);
    }

    // lfs_dir_drop: steal the state of the pair behind pair i, then commit to
    // pair i the tail that leaves it out.
    method Drop(i: nat, compact: bool)
      requires Conserved() && i + 1 < |shares|
      modifies this`shares, this`gdisk, this`gdelta
      ensures Conserved() && Settled()
      ensures var change := Masked(Xor(Xor(gstate, old(gdisk)), Xor(old(gdelta), old(shares)[i + 1])));
        shares == (old(shares)[..i + 1] + old(shares)[i + 2..])[i := Xor(old(shares)[i], change)]
    {
      hide Xor, Masked, Total, SameState, NoOrphans;
      var stolen := shares[i + 1];
      var rest := shares[..i + 1] + shares[i + 2..];
      assert rest[..i + 1] + [stolen] + rest[i + 1..] == shares;
      TotalInsert(rest, i + 1, stolen);
      Steal(Total(rest), stolen, gdelta);
      gdelta := Xor(gdelta, stolen);
      shares := rest;
      if compact {
        Compact(i, false);
      } else {
        Append(i);
      }
    }
  }
}
