// The mounts of the VFS: an intrusive circular list that is entered at its last
// node, and the lookup of the mount a path belongs to.

module VfsMounts {
  import opened Options
  import opened Sequences

  // vfs_mount_t with its list_entry
  class Mount {
    const point: string
    // The driver wants absolute paths (VFS_FS_FLAG_WANT_ABS_PATH).
    const wantAbs: bool
    var next: Mount?
    var openFiles: nat

    constructor (point: string, wantAbs: bool)
      requires point != "" && point[0] == '/'
      ensures this.point == point && this.wantAbs == wantAbs && next == null && openFiles == 0
    {
      this.point, this.wantAbs, next, openFiles := point, wantAbs, null, 0;
    }
  }

  // The sequence without one of its elements
  function Without(ms: seq<Mount>, k: nat): seq<Mount>
    requires k < |ms|
  {
    ms[..k] + ms[k + 1..]
  }

  // The nodes are linked in a circle in this order.
  ghost predicate Circle(ms: seq<Mount>)
    reads ms`next
  {
    NoRepeat(ms) && forall i :: 0 <= i < |ms| ==> ms[i].next == ms[if i == |ms| - 1 then 0 else i + 1]
  }

  // clist
  class MountList {
    var last: Mount?
    ghost var elems: seq<Mount>

    ghost predicate Valid()
      reads this, elems`next
    {
      Circle(elems) && if elems == [] then last == null else last == elems[|elems| - 1]
    }

    constructor ()
      ensures Valid() && elems == []
    {
      last, elems := null, [];
    }

    // clist_rpush
    method RPush(m: Mount)
      requires Valid() && m !in elems
      modifies this, elems`next, m`next
      ensures Valid() && elems == old(elems) + [m]
    {
      if last != null {
        m.next := last.next;
        last.next := m;
      } else {
        m.next := m;
      }
      last := m;
      elems := elems + [m];
    }

    // clist_lpush
    method LPush(m: Mount)
      requires Valid() && m !in elems
      modifies this, elems`next, m`next
      ensures Valid() && elems == [m] + old(elems)
    {
      if last != null {
        m.next := last.next;
        last.next := m;
      } else {
        m.next := m;
        last := m;
      }
      elems := [m] + elems;
    }

    lemma First()
      requires Valid() && elems != []
      ensures last != null && last == elems[|elems| - 1] && last.next == elems[0]
    {
    }

    lemma Single()
      requires Valid() && elems != [] && elems[0] == last
      ensures |elems| == 1
    {
    }

    // clist_lpop
    method LPop() returns (r: Mount?)
      requires Valid()
      modifies this, elems`next
      ensures Valid()
      ensures old(elems) == [] ==> r == null && elems == []
      ensures old(elems) != [] ==> r == old(elems)[0] && elems == old(elems)[1..]
    {
      if last == null {
        return null;
      }
      First();
      var first := last.next;
      if last == first {
        Single();
        last := null;
        elems := [];
      } else {
        assert first == elems[0] && first.next == elems[1];
        last.next := first.next;
        elems := elems[1..];
      }
      return first;
    }

    // clist_lpoprpush: the first node becomes the last.
    method LPopRPush()
      requires Valid()
      modifies this
      ensures Valid() && elems == if old(elems) == [] then [] else old(elems)[1..] + [old(elems)[0]]
    {
      if last != null {
        last := last.next;
        elems := elems[1..] + [elems[0]];
      }
    }

    // Turn the circle until the last node is the first.
    method Turn()
      requires Valid() && elems != []
      modifies this
      ensures Valid() && elems == [old(elems)[|old(elems)| - 1]] + old(elems)[..|old(elems)| - 1]
    {
      hide Circle;
      First();
      NoRepeatOf();
      var end := last;
      ghost var ms, k: nat := elems, 0;
      while last.next != end
        invariant Valid() && elems != [] && last != null && last.next == elems[0] && k < |ms|
        invariant elems == ms[k..] + ms[..k]
        decreases |ms| - k
      {
        Turned(ms, k, end);
        LPopRPush();
        k := k + 1;
        First();
      }
      Found(ms, k, end);
    }

    // clist_rpop
    method RPop() returns (r: Mount?)
      requires Valid()
      modifies this, elems`next
      ensures Valid()
      ensures old(elems) == [] ==> r == null && elems == []
      ensures old(elems) != [] ==> r == old(elems)[|old(elems)| - 1] && elems == old(elems)[..|old(elems)| - 1]
    {
      hide Circle;
      if last == null {
        return null;
      }
      ghost var ms := elems;
      Turn();
      assert Elements(elems) == Elements(ms) by {
        assert ms == ms[..|ms| - 1] + [ms[|ms| - 1]];
      }
      r := LPop();
    }

    lemma NoRepeatOf()
      requires Valid()
      ensures NoRepeat(elems)
    {
    }

    lemma Link(i: nat)
      requires Valid() && i < |elems|
      ensures elems[i].next == elems[if i == |elems| - 1 then 0 else i + 1]
      ensures elems[i] == last <==> i == |elems| - 1
    {
    }

    // clist_find_before: the node whose successor is m
    method FindBefore(m: Mount) returns (r: Mount?, ghost k: nat)
      requires Valid()
      ensures r == null <==> m !in elems
      ensures r != null ==> k < |elems| && elems[k] == m && r == elems[if k == 0 then |elems| - 1 else k - 1]
    {
      if last == null {
        return null, 0;
      }
      First();
      var pos := last;
      ghost var i: nat := 0;
      while true
        invariant i < |elems| && pos == elems[if i == 0 then |elems| - 1 else i - 1]
        invariant m !in elems[1..i + 1]
        decreases |elems| - i
      {
        pos := pos.next;
        Link(if i == 0 then |elems| - 1 else i - 1);
        Link(i);
        assert pos == elems[i];
        if pos.next == m {
          return pos, if i == |elems| - 1 then 0 else i + 1;
        }
        if pos == last {
          NotInCircle(elems, m, i);
          return null, 0;
        }
        i := i + 1;
      }
    }

    // clist_find
    method Find(m: Mount) returns (r: Mount?)
      requires Valid()
      ensures r == if m in elems then m else null
    {
      var before;
      ghost var k;
      before, k := FindBefore(m);
      if before == null {
        return null;
      }
      Link(if k == 0 then |elems| - 1 else k - 1);
      r := before.next;
    }

    // clist_count
    method Count() returns (n: nat)
      requires Valid()
      ensures n == |elems|
    {
      n := 0;
      if last == null {
        return;
      }
      First();
      var node := last;
      while true
        invariant n < |elems| && node == elems[if n == 0 then |elems| - 1 else n - 1]
        decreases |elems| - n
      {
        Link(if n == 0 then |elems| - 1 else n - 1);
        node := node.next;
        Link(n);
        n := n + 1;
        if node == last {
          return;
        }
      }
    }

    // clist_remove
    method Remove(m: Mount) returns (r: Mount?)
      requires Valid()
      modifies this, elems`next
      ensures Valid()
      ensures m !in old(elems) ==> r == null && elems == old(elems)
      ensures m in old(elems) ==> r == m && exists k {:trigger old(elems)[k]} ::
                0 <= k < |old(elems)| && old(elems)[k] == m && elems == Without(old(elems), k)
      ensures m !in elems
    {
      if last == null {
        return null;
      }
      First();
      NoRepeatOf();
      hide Circle;
      if last.next == m {
        ghost var ms := elems;
        r := LPop();
        assert elems == Without(ms, 0);
        Gone(ms, 0);
        return;
      }
      var before;
      ghost var k;
      before, k := FindBefore(m);
      if before == null {
        return null;
      }
      Gone(elems, k);
      Unlink(before, m, k);
      r := m;
    }

    method Unlink(before: Mount, m: Mount, ghost k: nat)
      requires Valid() && 0 < k < |elems| && elems[k] == m && before == elems[k - 1]
      modifies this, before`next
      ensures Valid() && elems == Without(old(elems), k)
    {
      Link(k - 1);
      Link(k);
      ghost var ms := elems;
      before.next := before.next.next;
      if m == last {
        last := before;
      }
      elems := Without(ms, k);
      StillOnce(ms, k);
      forall i | 0 <= i < |elems|
        ensures elems[i].next == elems[if i == |elems| - 1 then 0 else i + 1]
      {
        var j := if i < k then i else i + 1;
        assert elems[i] == ms[j];
        assert j != k - 1 ==> old(ms[j].next) == ms[if j == |ms| - 1 then 0 else j + 1];
      }
    }

    // The loop of _find_mount over all mounts
    method Search(name: string) returns (r: Mount?, longest: nat)
      requires Valid()
      ensures r == null ==> forall i {:trigger elems[i]} :: 0 <= i < |elems| ==> !Prefix(elems[i].point, name)
      ensures r != null ==>
                && longest == Weight(r.point) <= |name|
                && exists k {:trigger elems[k]} :: 0 <= k < |elems| && r == elems[k] && Best(elems, name, k)
    {
      r, longest := null, 0;
      if last == null {
        return;
      }
      hide Circle, BestSoFar, Best, Prefix, Weight;
      First();
      var node := last;
      ghost var n: nat, best: nat := 0, 0;
      var end := false;
      BestOfNone(elems, name);
      while !end
        invariant n <= |elems| && (end <==> n == |elems|) && node == elems[if n == 0 then |elems| - 1 else n - 1]
        invariant BestSoFar(elems, name, n, r, longest, best)
        decreases |elems| - n
      {
        node, end := Next(node, n);
        r, longest, best := Consider(node, n, name, r, longest, best);
        n := n + 1;
      }
      Searched(elems, name, r, longest, best);
    }

    // The n-th node of a walk around the circle
    method Next(node0: Mount, ghost n: nat) returns (node: Mount, end: bool)
      requires Valid() && n < |elems| && node0 == elems[if n == 0 then |elems| - 1 else n - 1]
      ensures node == elems[n] && (end <==> n == |elems| - 1)
    {
      Link(if n == 0 then |elems| - 1 else n - 1);
      node := node0.next;
      Link(n);
      end := node == last;
    }

    method Consider(node: Mount, ghost n: nat, name: string, r0: Mount?, longest0: nat, ghost best0: nat)
      returns (r: Mount?, longest: nat, ghost best: nat)
      requires n < |elems| && node == elems[n] && BestSoFar(elems, name, n, r0, longest0, best0)
      ensures BestSoFar(elems, name, n + 1, r, longest, best)
    {
      hide BestSoFar, Best, Prefix;
      r, longest, best := r0, longest0, best0;
      Step(elems, name, n, r, longest, best);
      var better := Better(node.point, name, longest);
      if better {
        if |node.point| > 1 {
          longest := |node.point|;
        }
        r, best := node, n;
      }
    }

    // _find_mount: on success the mount is referenced once more.
    method FindMount(name: string) returns (r: Option<Mount>, relPath: string)
      requires Valid()
      modifies elems`openFiles
      ensures Valid()
      ensures r.None? ==> forall i {:trigger elems[i]} :: 0 <= i < |elems| ==> !Prefix(elems[i].point, name)
      ensures r.Some? ==>
                exists k {:trigger elems[k]} :: 0 <= k < |elems| && r.value == elems[k] && Best(elems, name, k)
      ensures r.Some? ==> Weight(r.value.point) <= |name|
      ensures r.Some? ==> relPath == if r.value.wantAbs then name else name[Weight(r.value.point)..]
      ensures forall m {:trigger m.openFiles} :: m in elems ==>
                m.openFiles == old(m.openFiles) + if r == Some(m) then 1 else 0
    {
      hide Circle;
      var m, longest := Search(name);
      if m == null {
        return None, "";
      }
      m.openFiles := m.openFiles + 1;
      r, relPath := Some(m), if m.wantAbs then name else name[longest..];
    }
  }

  // The tests of _find_mount for one mount
  method Better(point: string, name: string, longest: nat) returns (better: bool)
    ensures better <==> Prefix(point, name) && |point| >= longest
  {
    var len := |point|;
    better := false;
    if len < longest {
      return;
    }
    if len > |name| {
      return;
    }
    if len > 1 && len < |name| && name[len] != '/' {
      return;
    }
    better := name[..len] == point;
  }

  // point is a prefix of the path that ends at a component.
  predicate Prefix(point: string, name: string) {
    && |point| <= |name| && name[..|point|] == point
    && (|point| > 1 ==> |point| == |name| || name[|point|] == '/')
  }

  // How much of the path a mount takes: the root takes none.
  function Weight(point: string): nat {
    if |point| > 1 then |point| else 0
  }

  // The last one of the longest matches
  ghost predicate Best(ms: seq<Mount>, name: string, k: nat) {
    k < |ms| && Prefix(ms[k].point, name) &&
    forall j {:trigger ms[j]} :: 0 <= j < |ms| && Prefix(ms[j].point, name) ==>
      Weight(ms[j].point) < Weight(ms[k].point) || (Weight(ms[j].point) == Weight(ms[k].point) && j <= k)
  }

  ghost predicate BestSoFar(ms: seq<Mount>, name: string, n: nat, r: Mount?, longest: nat, best: nat) {
    n <= |ms| &&
    if r == null then longest == 0 && forall i {:trigger ms[i]} :: 0 <= i < n ==> !Prefix(ms[i].point, name)
                 else best < n && r == ms[best] && longest == Weight(r.point) && Best(ms[..n], name, best)
  }

  lemma BestOfNone(ms: seq<Mount>, name: string)
    ensures BestSoFar(ms, name, 0, null, 0, 0)
  {
  }

  lemma Searched(ms: seq<Mount>, name: string, r: Mount?, longest: nat, best: nat)
    requires BestSoFar(ms, name, |ms|, r, longest, best)
    ensures r == null ==> forall i {:trigger ms[i]} :: 0 <= i < |ms| ==> !Prefix(ms[i].point, name)
    ensures r != null ==> longest == Weight(r.point) <= |name| && best < |ms| && r == ms[best] && Best(ms, name, best)
  {
    assert ms[..|ms|] == ms;
  }

  // One more mount: it is the new best unless it does not match or is shorter.
  lemma Step(ms: seq<Mount>, name: string, n: nat, r: Mount?, longest: nat, best: nat)
    requires n < |ms| && BestSoFar(ms, name, n, r, longest, best)
    ensures var p := ms[n].point;
      if Prefix(p, name) && |p| >= longest then
        && BestSoFar(ms, name, n + 1, ms[n], if |p| > 1 then |p| else longest, n)
      else BestSoFar(ms, name, n + 1, r, longest, best)
  {
    var p := ms[n].point;
    if Prefix(p, name) && |p| >= longest {
      NewBest(ms, name, n, r, longest, best);
    } else if r != null {
      OldBest(ms, name, n, best);
    }
  }

  lemma NewBest(ms: seq<Mount>, name: string, n: nat, r: Mount?, longest: nat, best: nat)
    requires n < |ms| && BestSoFar(ms, name, n, r, longest, best) && Prefix(ms[n].point, name)
    requires |ms[n].point| >= longest
    ensures Best(ms[..n + 1], name, n) && (|ms[n].point| <= 1 ==> longest == 0)
  {
    hide Prefix;
    var t, u := ms[..n + 1], ms[..n];
    forall j {:trigger t[j]} | 0 <= j < n + 1 && Prefix(t[j].point, name)
      ensures Weight(t[j].point) <= Weight(ms[n].point)
    {
      assert j < n ==> u[j] == ms[j];
    }
  }

  lemma OldBest(ms: seq<Mount>, name: string, n: nat, best: nat)
    requires n < |ms| && best < n && Best(ms[..n], name, best)
    requires !Prefix(ms[n].point, name) || |ms[n].point| < Weight(ms[best].point)
    ensures Best(ms[..n + 1], name, best)
  {
    hide Prefix;
    var t, u := ms[..n + 1], ms[..n];
    forall j {:trigger t[j]} | 0 <= j < n + 1 && Prefix(t[j].point, name)
      ensures var w, b := Weight(t[j].point), Weight(ms[best].point); w < b || (w == b && j <= best)
    {
      assert j < n ==> u[j] == ms[j];
    }
  }

  lemma StillOnce(ms: seq<Mount>, k: nat)
    requires NoRepeat(ms) && k < |ms|
    ensures NoRepeat(Without(ms, k))
  {
  }

  lemma Gone(ms: seq<Mount>, k: nat)
    requires NoRepeat(ms) && k < |ms|
    ensures ms[k] !in Without(ms, k)
  {
  }

  lemma NotInCircle(ms: seq<Mount>, m: Mount, i: nat)
    requires i == |ms| - 1 && m !in ms[1..i + 1] && ms[0] != m
    ensures m !in ms
  {
    assert ms == [ms[0]] + ms[1..];
  }

  lemma Turned(ms: seq<Mount>, k: nat, end: Mount)
    requires k < |ms| && end == ms[|ms| - 1] && (ms[k..] + ms[..k])[0] != end
    ensures k + 1 < |ms|
    ensures (ms[k..] + ms[..k])[1..] + [(ms[k..] + ms[..k])[0]] == ms[k + 1..] + ms[..k + 1]
  {
  }

  lemma Found(ms: seq<Mount>, k: nat, end: Mount)
    requires NoRepeat(ms) && k < |ms| && end == ms[|ms| - 1] && (ms[k..] + ms[..k])[0] == end
    ensures ms[k..] + ms[..k] == [end] + ms[..|ms| - 1]
  {
  }
}
