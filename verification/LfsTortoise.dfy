// Walking the list of metadata pairs along their tails, with Brent's cycle
// detection: a walk ends on every disk, and reports a cycle only if there is one.

module LfsTortoise {
  import opened Options
  import opened Sequences

  // A metadata pair; its two blocks may be named in either order.
  datatype Pair = Pair(b0: nat, b1: nat)

  // lfs_pair_issync
  predicate Sync(p: Pair, q: Pair) {
    (p.b0 == q.b0 && p.b1 == q.b1) || (p.b0 == q.b1 && p.b1 == q.b0)
  }

  function Canon(p: Pair): Pair {
    if p.b0 <= p.b1 then p else Pair(p.b1, p.b0)
  }

  lemma SyncIsSame(p: Pair, q: Pair)
    ensures Sync(p, q) <==> Canon(p) == Canon(q)
  {
  }

  // What fetching each pair finds as its tail
  type Tails = map<Pair, Option<Pair>>

  // xs is what a walk from `start` visits, in order.
  ghost predicate Path(tails: Tails, start: Pair, xs: seq<Pair>) {
    && (xs != [] ==> xs[0] == Canon(start))
    && (forall i {:trigger xs[i]} :: 0 <= i < |xs| ==> xs[i] in tails)
    && (forall i {:trigger tails[xs[i]]} :: 0 <= i < |xs| - 1 ==>
          tails[xs[i]].Some? && xs[i + 1] == Canon(tails[xs[i]].value))
  }

  // xs is the whole list.
  ghost predicate IsList(tails: Tails, start: Pair, xs: seq<Pair>) {
    Path(tails, start, xs) && xs != [] && tails[xs[|xs| - 1]].None?
  }

  // From the same pair the walk goes on in the same way.
  lemma {:induction false} Repeats(tails: Tails, start: Pair, xs: seq<Pair>, i: nat, j: nat, n: nat)
    requires Path(tails, start, xs) && i < j && j + n < |xs| && xs[i] == xs[j]
    ensures xs[i + n] == xs[j + n]
  {
    if n > 0 {
      Repeats(tails, start, xs, i, j, n - 1);
      assert xs[i + (n - 1) + 1] == Canon(tails[xs[i + (n - 1)]].value);
      assert xs[j + (n - 1) + 1] == Canon(tails[xs[j + (n - 1)]].value);
    }
  }

  // A list that ends visits no pair twice.
  lemma ListNoRepeat(tails: Tails, start: Pair, xs: seq<Pair>)
    requires IsList(tails, start, xs)
    ensures NoRepeat(xs)
  {
    forall i, j | 0 <= i < j < |xs|
      ensures xs[i] != xs[j]
    {
      if xs[i] == xs[j] {
        var n := |xs| - 1 - j;
        Repeats(tails, start, xs, i, j, n);
      }
    }
  }

  // Two walks from the same pair agree as far as both go.
  lemma {:induction false} PathsAgree(tails: Tails, start: Pair, xs: seq<Pair>, ys: seq<Pair>, n: nat)
    requires Path(tails, start, xs) && Path(tails, start, ys) && n < |xs| && n < |ys|
    ensures xs[n] == ys[n]
  {
    if n > 0 {
      PathsAgree(tails, start, xs, ys, n - 1);
      assert xs[n - 1 + 1] == Canon(tails[xs[n - 1]].value);
      assert ys[n - 1 + 1] == Canon(tails[ys[n - 1]].value);
    }
  }

  // A walk that comes back never ends.
  lemma CycleNoList(tails: Tails, start: Pair, xs: seq<Pair>, i: nat, j: nat, ys: seq<Pair>)
    requires Path(tails, start, xs) && i < j < |xs| && xs[i] == xs[j]
    ensures !IsList(tails, start, ys)
  {
    if IsList(tails, start, ys) {
      ListNoRepeat(tails, start, ys);
      if j < |ys| {
        PathsAgree(tails, start, xs, ys, i);
        PathsAgree(tails, start, xs, ys, j);
      } else {
        PathsAgree(tails, start, xs, ys, |ys| - 1);
      }
    }
  }

  // ---- Where the tortoise sits -----------------------------------------------

  // The position of the tortoise when the hare is at position n: 0, 2, 6, 14, ...
  function Tortoise(n: nat): (p: nat)
    requires n >= 1
    ensures p < n <= 2 * p + 2
  {
    if n == 1 then 0
    else
      var p := Tortoise(n - 1);
      if n - 1 == 2 * p + 2 then n - 1 else p
  }

  // Once moved to t, it stays there for t+2 steps.
  lemma {:induction false} TortoiseStays(t: nat, n: nat)
    requires Tortoise(t + 1) == t && t < n <= 2 * t + 2
    ensures Tortoise(n) == t
  {
    if n > t + 1 {
      TortoiseStays(t, n - 1);
    }
  }

  // A position of the tortoise that is far enough, but not too far
  lemma {:induction false} FarEnough(mu: nat, lambda: nat, t: nat) returns (r: nat)
    requires lambda >= 1 && Tortoise(t + 1) == t
    requires t == 0 || t <= 2 * mu || t + 4 <= 2 * lambda
    ensures r >= mu && r + 2 >= lambda && Tortoise(r + 1) == r
    ensures r == 0 || r <= 2 * mu || r + 4 <= 2 * lambda
    decreases mu + lambda - t
  {
    if t >= mu && t + 2 >= lambda {
      r := t;
    } else {
      TortoiseStays(t, 2 * t + 2);
      r := FarEnough(mu, lambda, 2 * t + 2);
    }
  }

  // No comparison of the walk so far found a cycle.
  ghost predicate Unnoticed(xs: seq<Pair>) {
    forall n: nat {:trigger Tortoise(n)} :: 1 <= n < |xs| ==> xs[n] != xs[Tortoise(n)]
  }

  // Pigeonhole
  lemma {:induction false} SomeRepeat(xs: seq<Pair>, s: set<Pair>) returns (i: nat, j: nat)
    requires |xs| > |s| && forall k {:trigger xs[k]} :: 0 <= k < |xs| ==> xs[k] in s
    ensures i < j <= |s| && j < |xs| && xs[i] == xs[j]
    decreases |s|
  {
    var last := xs[|s|];
    if k :| 0 <= k < |s| && xs[k] == last {
      i, j := k, |s|;
    } else {
      var rest := s - {last};
      assert |rest| == |s| - 1;
      i, j := SomeRepeat(xs[..|s|], rest);
    }
  }

  lemma NoticedBefore(tails: Tails, start: Pair, xs: seq<Pair>, i: nat, j: nat, n: nat)
    requires Path(tails, start, xs) && Unnoticed(xs) && i < j <= n && j < |xs| && xs[i] == xs[j]
    ensures |xs| <= 3 * n
  {
    hide Path;
    var lambda: nat := j - i;
    var t := FarEnough(i, lambda, 0);
    TortoiseStays(t, t + lambda);
    if t + lambda < |xs| {
      Repeats(tails, start, xs, i, j, t - i);
    }
  }

  // A cycle does not stay unnoticed for more than 3N steps.
  lemma Noticed(tails: Tails, start: Pair, xs: seq<Pair>)
    requires Path(tails, start, xs) && Unnoticed(xs)
    ensures |xs| <= 3 * |tails|
  {
    assert |tails.Keys| == |tails|;
    if |xs| > |tails| {
      var i, j := SomeRepeat(xs, tails.Keys);
      NoticedBefore(tails, start, xs, i, j, |tails|);
    }
  }

  // ---- The walk ------------------------------------------------------------------

  datatype Outcome = Ended | Cycle | BadPair

  // lfs_tortoise_detectcycles
  method Detect(tail: Pair, tortoise: Option<Pair>, i: nat, period: nat)
    returns (hit: bool, tortoise': Option<Pair>, i': nat, period': nat)
    ensures hit <==> tortoise.Some? && Canon(tail) == Canon(tortoise.value)
    ensures !hit && i == period ==> tortoise' == Some(tail) && i' == 1 && period' == 2 * period
    ensures !hit && i != period ==> tortoise' == tortoise && i' == i + 1 && period' == period
  {
    tortoise', i', period' := tortoise, i, period;
    if tortoise.Some? {
      SyncIsSame(tail, tortoise.value);
      if Sync(tail, tortoise.value) {
        return true, tortoise, i, period;
      }
    }
    if i == period {
      tortoise', i', period' := Some(tail), 0, period * 2;
    }
    i' := i' + 1;
    hit := false;
  }

  // The tortoise after the visit to xs
  ghost predicate Placed(xs: seq<Pair>, tortoise: Option<Pair>, i: nat, period: nat) {
    if xs == [] then tortoise.None? && i == 1 && period == 1
    else
      var p := Tortoise(|xs|);
      tortoise.Some? && Canon(tortoise.value) == xs[p] && i == |xs| - p && period == p + 2
  }

  // The loop over the tail list, as in mounting, traversing and the searches
  // for predecessors and parents
  method Walk(tails: Tails, start: Pair) returns (r: Outcome, ghost xs: seq<Pair>)
    ensures Path(tails, start, xs) && |xs| <= 3 * |tails|
    ensures r == Ended ==> IsList(tails, start, xs) && NoRepeat(xs)
    ensures r == Cycle ==> forall ys {:trigger IsList(tails, start, ys)} :: !IsList(tails, start, ys)
    ensures r == BadPair ==> forall ys {:trigger IsList(tails, start, ys)} :: !IsList(tails, start, ys)
  {
    hide Path, Unnoticed, Tortoise;
    var tail := Some(start);
    var tortoise: Option<Pair> := None;
    var i: nat, period: nat := 1, 1;
    xs := [];
    NothingVisited(tails, start);
    while tail.Some?
      invariant Path(tails, start, xs) && Unnoticed(xs) && |xs| <= 3 * |tails|
      invariant if xs == [] then tail == Some(start) else xs[|xs| - 1] in tails && tail == tails[xs[|xs| - 1]]
      invariant Placed(xs, tortoise, i, period)
      decreases 3 * |tails| - |xs|
    {
      var cur := tail.value;
      var hit;
      hit, tortoise, i, period := Detect(cur, tortoise, i, period);
      if hit {
        CameBack(tails, start, xs, cur, Tortoise(|xs|));
        return Cycle, xs;
      }
      if Canon(cur) !in tails {
        LeadsNowhere(tails, start, xs, cur);
        return BadPair, xs;
      }
      tail := tails[Canon(cur)];
      Visit(tails, start, xs, cur);
      xs := xs + [Canon(cur)];
      Noticed(tails, start, xs);
    }
    ListNoRepeat(tails, start, xs);
    r := Ended;
  }

  lemma NothingVisited(tails: Tails, start: Pair)
    ensures Path(tails, start, []) && Unnoticed([])
  {
  }

  lemma Visit(tails: Tails, start: Pair, xs: seq<Pair>, cur: Pair)
    requires Path(tails, start, xs) && Unnoticed(xs) && Canon(cur) in tails
    requires if xs == [] then cur == start else tails[xs[|xs| - 1]] == Some(cur) && Canon(cur) != xs[Tortoise(|xs|)]
    ensures Path(tails, start, xs + [Canon(cur)]) && Unnoticed(xs + [Canon(cur)])
    ensures xs == [] ==> Tortoise(|xs| + 1) == 0
    ensures xs != [] ==> Tortoise(|xs| + 1) == var p := Tortoise(|xs|); if |xs| == 2 * p + 2 then |xs| else p
  {
  }

  lemma CameBack(tails: Tails, start: Pair, xs: seq<Pair>, cur: Pair, p: nat)
    requires Path(tails, start, xs) && p < |xs| && xs[p] == Canon(cur)
    requires tails[xs[|xs| - 1]] == Some(cur)
    ensures forall ys {:trigger IsList(tails, start, ys)} :: !IsList(tails, start, ys)
  {
    var xs' := xs + [Canon(cur)];
    assert Path(tails, start, xs');
    forall ys
      ensures !IsList(tails, start, ys)
    {
      CycleNoList(tails, start, xs', p, |xs|, ys);
    }
  }

  lemma LeadsNowhere(tails: Tails, start: Pair, xs: seq<Pair>, cur: Pair)
    requires Path(tails, start, xs) && Canon(cur) !in tails
    requires if xs == [] then cur == start else tails[xs[|xs| - 1]] == Some(cur)
    ensures forall ys {:trigger IsList(tails, start, ys)} :: !IsList(tails, start, ys)
  {
    forall ys
      ensures !IsList(tails, start, ys)
    {
      if IsList(tails, start, ys) {
        ListGoesOn(tails, start, xs, cur, ys);
      }
    }
  }

  // Every pair a walk comes to is in the list, if there is one.
  lemma ListGoesOn(tails: Tails, start: Pair, xs: seq<Pair>, cur: Pair, ys: seq<Pair>)
    requires Path(tails, start, xs) && IsList(tails, start, ys)
    requires if xs == [] then cur == start else tails[xs[|xs| - 1]] == Some(cur)
    ensures Canon(cur) in tails
  {
    var n := |xs|;
    if n == 0 {
      assert ys[0] in tails;
    } else if n < |ys| {
      PathsAgree(tails, start, xs, ys, n - 1);
      assert ys[n - 1 + 1] == Canon(tails[ys[n - 1]].value);
      assert ys[n] in tails;
    } else {
      PathsAgree(tails, start, xs, ys, |ys| - 1);
    }
  }
}
