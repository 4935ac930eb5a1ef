// The entries of a FAT as links: chains of clusters, and what creating and
// removing them does to all chains of the volume.

module FatChain {
  import opened Sequences

  // The number of free clusters among the first k entries
  function FreeCount(e: seq<nat>, k: nat): nat
    requires k <= |e|
  {
    if k <= 2 then 0 else FreeCount(e, k - 1) + if e[k - 1] == 0 then 1 else 0
  }

  function Free(e: seq<nat>): nat {
    FreeCount(e, |e|)
  }

  lemma {:induction false} FreeBound(e: seq<nat>, k: nat)
    requires 2 <= k <= |e|
    ensures FreeCount(e, k) <= k - 2
    ensures FreeCount(e, k) == k - 2 ==> forall c :: 2 <= c < k ==> e[c] == 0
    ensures FreeCount(e, k) == 0 ==> forall c :: 2 <= c < k ==> e[c] != 0
  {
    if k > 2 {
      FreeBound(e, k - 1);
    }
  }

  lemma {:induction false} FreeUpdate(e: seq<nat>, c: nat, v: nat, k: nat)
    requires 2 <= c < |e| && k <= |e|
    ensures FreeCount(e[c := v], k) ==
            FreeCount(e, k) + if c < k then (if v == 0 then 1 else 0) - (if e[c] == 0 then 1 else 0) else 0
  {
    if k > 2 {
      FreeUpdate(e, c, v, k - 1);
    }
  }

  // A known free count is right.
  predicate Accurate(freeClst: nat, e: seq<nat>) {
    |e| >= 2 && (freeClst <= |e| - 2 ==> freeClst == Free(e))
  }

  // ---- Chains -------------------------------------------------------------------
  // Each cluster leads to the next, the last one to none.
  ghost predicate Chain(e: seq<nat>, cs: seq<nat>) {
    && cs != [] && NoRepeat(cs)
    && (forall i :: 0 <= i < |cs| ==> 2 <= cs[i] < |e|)
    && (forall i :: 0 <= i < |cs| - 1 ==> e[cs[i]] == cs[i + 1])
    && e[cs[|cs| - 1]] >= |e|
  }

  // Every cluster that is not free is in exactly one of these chains.
  ghost predicate Tiling(e: seq<nat>, chains: set<seq<nat>>) {
    AllChains(e, chains) && Disjoint(chains) && Covered(e, chains)
  }

  ghost predicate AllChains(e: seq<nat>, chains: set<seq<nat>>) {
    forall cs {:trigger cs in chains} :: cs in chains ==> Chain(e, cs)
  }

  ghost predicate Disjoint(chains: set<seq<nat>>) {
    forall cs, ds, c {:trigger cs in chains, ds in chains, c in cs, c in ds} ::
      cs in chains && ds in chains && c in cs && c in ds ==> cs == ds
  }

  ghost predicate Covered(e: seq<nat>, chains: set<seq<nat>>) {
    forall c {:trigger e[c]} :: 2 <= c < |e| && e[c] != 0 ==> exists cs :: cs in chains && c in cs
  }

  // Clusters of chain cs, and no clusters of the other chains
  ghost predicate Region(chains: set<seq<nat>>, gone: set<seq<nat>>, region: set<nat>) {
    && (forall cs, c {:trigger cs in gone, c in cs} :: cs in gone && c in cs ==> c in region)
    && (forall cs, c {:trigger cs in chains, c in cs} :: cs in chains && cs !in gone && c in cs ==> c !in region)
  }

  // At most one chain, made of clusters of the region, and all there is of them
  ghost predicate Replaced(e: seq<nat>, region: set<nat>, added: set<seq<nat>>) {
    && (forall cs {:trigger cs in added} :: cs in added ==> Chain(e, cs))
    && (forall cs, ds {:trigger cs in added, ds in added} :: cs in added && ds in added ==> cs == ds)
    && (forall cs, c {:trigger cs in added, c in cs} :: cs in added && c in cs ==> c in region)
    && (forall c {:trigger c in region} :: c in region && 2 <= c < |e| && e[c] != 0 ==>
          exists cs :: cs in added && c in cs)
  }

  // Chains may be exchanged where nothing else is touched.
  lemma Retile(e: seq<nat>, e': seq<nat>, chains: set<seq<nat>>, gone: set<seq<nat>>, added: set<seq<nat>>,
               region: set<nat>)
    requires Tiling(e, chains) && |e'| == |e| && Region(chains, gone, region) && Replaced(e', region, added)
    requires forall c {:trigger e'[c]} :: 0 <= c < |e| && c !in region ==> e'[c] == e[c]
    ensures Tiling(e', chains - gone + added)
  {
    hide Chain;
    forall cs | cs in chains && cs !in gone
      ensures Chain(e', cs)
    {
      ChainInside(e, cs);
      ChainFrame(e, e', cs);
    }
    RetileDisjoint(chains, gone, added, region, e');
    RetileCovered(e, e', chains, gone, added, region);
  }

  lemma ChainInside(e: seq<nat>, cs: seq<nat>)
    requires Chain(e, cs)
    ensures forall c {:trigger c in cs} :: c in cs ==> 2 <= c < |e|
  {
  }

  lemma RetileDisjoint(chains: set<seq<nat>>, gone: set<seq<nat>>, added: set<seq<nat>>, region: set<nat>, e': seq<nat>)
    requires Disjoint(chains) && Region(chains, gone, region) && Replaced(e', region, added)
    ensures Disjoint(chains - gone + added)
  {
    hide Chain;
  }

  lemma RetileCovered(e: seq<nat>, e': seq<nat>, chains: set<seq<nat>>, gone: set<seq<nat>>, added: set<seq<nat>>,
                      region: set<nat>)
    requires Covered(e, chains) && |e'| == |e| && Region(chains, gone, region) && Replaced(e', region, added)
    requires forall c {:trigger e'[c]} :: 0 <= c < |e| && c !in region ==> e'[c] == e[c]
    ensures Covered(e', chains - gone + added)
  {
    hide Chain;
    forall c | 2 <= c < |e'| && e'[c] != 0
      ensures exists cs :: cs in chains - gone + added && c in cs
    {
      if c in region {
        var cs :| cs in added && c in cs;
        assert cs in chains - gone + added;
      } else {
        assert e[c] != 0;
        var cs :| cs in chains && c in cs;
        assert cs in chains - gone + added;
      }
    }
  }

  lemma ChainNonzero(e: seq<nat>, cs: seq<nat>, c: nat)
    requires Chain(e, cs) && c in cs
    ensures 2 <= c < |e| && e[c] >= 2
  {
    var i :| 0 <= i < |cs| && cs[i] == c;
    if i < |cs| - 1 {
      assert e[cs[i]] == cs[i + 1];
    }
  }

  // Chains do not notice changes elsewhere.
  lemma ChainFrame(e: seq<nat>, e': seq<nat>, cs: seq<nat>)
    requires Chain(e, cs) && |e'| == |e|
    requires forall c {:trigger c in cs} :: c in cs ==> e'[c] == e[c]
    ensures Chain(e', cs)
  {
    forall i | 0 <= i < |cs| - 1
      ensures e'[cs[i]] == cs[i + 1]
    {
      assert cs[i] in cs;
    }
    assert cs[|cs| - 1] in cs;
  }

  // ---- create_chain ---------------------------------------------------------------

  // What create_chain answers and leaves, whatever the table looks like
  ghost predicate Created(e: seq<nat>, clst: nat, r: nat, e': seq<nat>, eoc: nat) {
    if clst != 0 && (clst < 2 || clst >= |e| || e[clst] < 2) then r == 1 && e' == e
    else if clst != 0 && e[clst] < |e| then r == e[clst] && e' == e
    else if r == 0 then e' == e && forall c :: 2 <= c < |e| ==> e[c] != 0
    else if r == 1 then e' == e && exists c :: 2 <= c < |e| && e[c] == 1
    else 2 <= r < |e| && e[r] == 0 && e' == if clst == 0 then e[r := eoc] else e[r := eoc][clst := r]
  }

  // No entry of chains is 1, so nothing fails when the chains are sound.
  lemma CreateSucceeds(e: seq<nat>, chains: set<seq<nat>>, clst: nat, r: nat, e': seq<nat>, eoc: nat)
    requires Tiling(e, chains) && Created(e, clst, r, e', eoc)
    requires clst == 0 || (2 <= clst < |e| && e[clst] != 0)
    ensures r != 1
  {
    forall c | 2 <= c < |e| && e[c] != 0
      ensures e[c] >= 2
    {
      var cs :| cs in chains && c in cs;
      ChainNonzero(e, cs, c);
    }
  }

  // A free cluster is in no chain.
  lemma FreeUnchained(e: seq<nat>, chains: set<seq<nat>>, r: nat)
    requires Tiling(e, chains) && r < |e| && e[r] == 0
    ensures forall cs {:trigger cs in chains} :: cs in chains ==> r !in cs
  {
    hide Chain;
    forall cs | cs in chains
      ensures r !in cs
    {
      if r in cs {
        ChainNonzero(e, cs, r);
      }
    }
  }

  // A new chain takes one cluster that was free.
  lemma CreateNew(e: seq<nat>, chains: set<seq<nat>>, r: nat, e': seq<nat>, eoc: nat)
    requires Tiling(e, chains) && Created(e, 0, r, e', eoc) && r >= 2 && eoc >= |e|
    ensures Tiling(e', chains + {[r]})
    ensures forall cs {:trigger cs in chains} :: cs in chains ==> r !in cs
  {
    hide Tiling;
    FreeUnchained(e, chains, r);
    assert Chain(e', [r]);
    assert r in [r];
    Retile(e, e', chains, {}, {[r]}, {r});
    assert chains - {} + {[r]} == chains + {[r]};
  }

  // Stretching a chain adds one cluster that was free at its end.
  lemma CreateStretch(e: seq<nat>, chains: set<seq<nat>>, cs: seq<nat>, r: nat, e': seq<nat>, eoc: nat)
    requires Tiling(e, chains) && cs in chains && eoc >= |e|
    requires cs != [] && Created(e, cs[|cs| - 1], r, e', eoc) && r >= 2
    ensures Tiling(e', chains - {cs} + {cs + [r]})
    ensures forall ds {:trigger ds in chains} :: ds in chains ==> r !in ds
  {
    FreeUnchained(e, chains, r);
    TilingChain(e, chains, cs);
    Longer(e, e', cs, r, eoc);
    hide Tiling, Chain, Replaced, Region;
    OneChain(e, chains, cs, {r});
    var region := Elements(cs) + {r};
    assert cs[|cs| - 1] in cs;
    OneReplaced(e', cs + [r], region);
    Retile(e, e', chains, {cs}, {cs + [r]}, region);
  }

  lemma OneReplaced(e: seq<nat>, cs: seq<nat>, region: set<nat>)
    requires Chain(e, cs) && forall c {:trigger c in cs} :: c in cs ==> c in region
    requires forall c {:trigger c in region} :: c in region && 2 <= c < |e| && e[c] != 0 ==> c in cs
    ensures Replaced(e, region, {cs})
  {
    hide Chain;
    assert cs in {cs};
  }

  // The clusters of one chain, and some that are in no chain
  lemma OneChain(e: seq<nat>, chains: set<seq<nat>>, cs: seq<nat>, extra: set<nat>)
    requires Tiling(e, chains) && cs in chains
    requires forall c, ds {:trigger c in extra, ds in chains} :: c in extra && ds in chains ==> c !in ds
    ensures Region(chains, {cs}, Elements(cs) + extra)
  {
    hide Chain;
  }

  lemma Longer(e: seq<nat>, e': seq<nat>, cs: seq<nat>, r: nat, eoc: nat)
    requires Chain(e, cs) && 2 <= r < |e| && r !in cs && eoc >= |e| && e' == e[r := eoc][cs[|cs| - 1] := r]
    ensures Chain(e', cs + [r])
  {
    var d := cs + [r];
    forall i | 0 <= i < |d| - 1
      ensures e'[d[i]] == d[i + 1]
    {
      assert cs[i] in cs;
    }
  }

  // ---- remove_chain ---------------------------------------------------------------

  function Used(e: seq<nat>): nat {
    if |e| < 2 || Free(e) > |e| then 0 else |e| - Free(e)
  }

  // The table with all clusters of cs marked free
  function Clear(e: seq<nat>, cs: seq<nat>): (r: seq<nat>)
    ensures |r| == |e|
    ensures forall c {:trigger r[c]} :: 0 <= c < |e| ==> r[c] == if c in cs then 0 else e[c]
    decreases |cs|
  {
    if cs == [] then e
    else
      var e1 := if cs[0] < |e| then e[cs[0] := 0] else e;
      Clear(e1, cs[1..])
  }

  // The clusters remove_chain frees when it starts at c: it follows the links
  // until it meets an end, a free cluster or an invalid link.
  function Walk(e: seq<nat>, c: nat): (cs: seq<nat>)
    decreases Used(e)
  {
    if !(2 <= c < |e|) || e[c] < 2 then []
    else
      FreeUpdate(e, c, 0, |e|);
      FreeBound(e, |e|);
      FreeBound(e[c := 0], |e|);
      [c] + Walk(e[c := 0], e[c])
  }

  // Whether the walk ends in an entry of value 1
  predicate WalkFails(e: seq<nat>, c: nat)
    decreases Used(e)
  {
    if !(2 <= c < |e|) || e[c] == 0 then false
    else if e[c] == 1 then true
    else
      FreeUpdate(e, c, 0, |e|);
      FreeBound(e, |e|);
      FreeBound(e[c := 0], |e|);
      WalkFails(e[c := 0], e[c])
  }

  lemma WalkStep(e: seq<nat>, c: nat)
    requires 2 <= c < |e| && e[c] >= 2
    ensures Clear(e, Walk(e, c)) == Clear(e[c := 0], Walk(e[c := 0], e[c]))
    ensures WalkFails(e, c) == WalkFails(e[c := 0], e[c])
    ensures Used(e[c := 0]) < Used(e)
  {
    FreeUpdate(e, c, 0, |e|);
    FreeBound(e, |e|);
    FreeBound(e[c := 0], |e|);
    var rest := Walk(e[c := 0], e[c]);
    assert ([c] + rest)[1..] == rest;
  }

  lemma ClearNothing(e: seq<nat>)
    ensures Clear(e, []) == e
  {
  }

  // Along a chain the walk frees exactly what follows.
  lemma {:induction false} WalkChain(e: seq<nat>, cs: seq<nat>)
    requires Chain(e, cs)
    ensures Walk(e, cs[0]) == cs && !WalkFails(e, cs[0])
    decreases |cs|
  {
    var e1 := e[cs[0] := 0];
    if |cs| > 1 {
      var rest := cs[1..];
      assert Chain(e1, rest) by {
        forall i | 0 <= i < |rest|
          ensures rest[i] == cs[i + 1] && e1[rest[i]] == e[cs[i + 1]]
        {
        }
      }
      assert e[cs[0]] == cs[1];
      WalkChain(e1, rest);
      assert cs == [cs[0]] + rest;
    } else {
      assert cs == [cs[0]];
    }
  }

  // Removing a whole chain
  lemma RemoveAll(e: seq<nat>, chains: set<seq<nat>>, cs: seq<nat>)
    requires Tiling(e, chains) && cs in chains && cs != []
    ensures Walk(e, cs[0]) == cs && !WalkFails(e, cs[0])
    ensures Tiling(Clear(e, cs), chains - {cs})
  {
    TilingChain(e, chains, cs);
    WalkChain(e, cs);
    hide Tiling, Chain;
    OneChain(e, chains, cs, {});
    var e' := Clear(e, cs);
    assert Replaced(e', Elements(cs) + {}, {});
    Retile(e, e', chains, {cs}, {}, Elements(cs) + {});
    assert chains - {cs} + {} == chains - {cs};
  }

  // Cutting a chain before its k-th cluster
  lemma RemoveTail(e: seq<nat>, chains: set<seq<nat>>, cs: seq<nat>, k: nat, eoc: nat)
    requires Tiling(e, chains) && cs in chains && 0 < k < |cs| && eoc >= |e|
    ensures cs[k - 1] < |e|
    ensures var e1 := e[cs[k - 1] := eoc];
      && Walk(e1, cs[k]) == cs[k..] && !WalkFails(e1, cs[k])
      && Tiling(Clear(e1, cs[k..]), chains - {cs} + {cs[..k]})
  {
    hide Tiling, Chain, Walk, WalkFails, Clear;
    TilingChain(e, chains, cs);
    CutChain(e, cs, k, eoc);
    var front, back, last := cs[..k], cs[k..], cs[k - 1];
    WalkChain(e[last := eoc], back);
    assert cs == front + back;
    assert last == front[k - 1];
    CutRetile(e, chains, cs, front, back, last, eoc);
  }

  lemma TilingChain(e: seq<nat>, chains: set<seq<nat>>, cs: seq<nat>)
    requires Tiling(e, chains) && cs in chains
    ensures Chain(e, cs)
  {
    hide Chain;
  }

  lemma CutRetile(e: seq<nat>, chains: set<seq<nat>>, cs: seq<nat>, front: seq<nat>, back: seq<nat>, last: nat,
                  eoc: nat)
    requires Tiling(e, chains) && cs in chains && cs == front + back && last in front && last < |e|
    requires Chain(Clear(e[last := eoc], back), front)
    ensures Tiling(Clear(e[last := eoc], back), chains - {cs} + {front})
  {
    hide Tiling, Chain, Replaced, Region;
    var e' := Clear(e[last := eoc], back);
    OneChain(e, chains, cs, {});
    var region := Elements(cs) + {};
    OneReplaced(e', front, region);
    Retile(e, e', chains, {cs}, {front}, region);
  }

  lemma CutChain(e: seq<nat>, cs: seq<nat>, k: nat, eoc: nat)
    requires Chain(e, cs) && 0 < k < |cs| && eoc >= |e|
    ensures cs[k - 1] < |e| && Chain(e[cs[k - 1] := eoc], cs[k..])
    ensures Chain(Clear(e[cs[k - 1] := eoc], cs[k..]), cs[..k])
  {
    var front, back, e1 := cs[..k], cs[k..], e[cs[k - 1] := eoc];
    forall i | 0 <= i < |back| - 1
      ensures e1[back[i]] == back[i + 1]
    {
      assert e[cs[i + k]] == cs[i + k + 1];
    }
    assert e1[back[|back| - 1]] == e[cs[|cs| - 1]];
    CutFront(e, cs, k, eoc);
  }

  lemma CutFront(e: seq<nat>, cs: seq<nat>, k: nat, eoc: nat)
    requires Chain(e, cs) && 0 < k < |cs| && eoc >= |e|
    ensures Chain(Clear(e[cs[k - 1] := eoc], cs[k..]), cs[..k])
  {
    var front, back, e1 := cs[..k], cs[k..], e[cs[k - 1] := eoc];
    var e' := Clear(e1, back);
    forall i | 0 <= i < k
      ensures front[i] !in back && e'[front[i]] == e1[front[i]]
    {
    }
    forall i | 0 <= i < k - 1
      ensures e'[front[i]] == front[i + 1]
    {
      assert e[cs[i]] == cs[i + 1];
    }
  }
}
