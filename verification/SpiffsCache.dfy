// The page cache of SPIFFS: a bitmap of cache pages in use, each holding a page
// of the flash or the data an open file waits to write.

module SpiffsCache {
  import opened Bytes
  import opened Options

  // A cache page with its header; pix is the page it repeats, or for a write
  // page the object it belongs to.
  datatype Page = Page(wr: bool, wrthru: bool, dirty: bool, pix: nat, last: nat, mem: seq<byte>)

  const U32: nat := 0x1_0000_0000

  datatype Com = Delete | WriteThrough | Other

  // Writes that count as accesses: those that change a page in the cache
  predicate Ticks(com: Com, lookup: bool) {
    com != WriteThrough && !(com == Delete && !lookup)
  }

  // a - b on 32-bit counters
  function Minus32(a: nat, b: nat): (d: nat)
    requires a < U32 && b < U32
    ensures d < U32
  {
    (a - b + U32) % U32
  }

  // Between two readings less than 2^32 ticks apart the difference is exact.
  lemma Elapsed(clock: nat, stamp: nat)
    requires stamp <= clock < stamp + U32
    ensures Minus32(clock % U32, stamp % U32) == clock - stamp
  {
  }

  lemma LaidSame(page: seq<byte>, off: nat, data: seq<byte>)
    requires off + |data| <= |page|
    ensures Laid(page, off, data) == page <==> page[off..off + |data|] == data
  {
    assert Laid(page, off, data)[off..off + |data|] == data;
  }

  // ---- Invariants ------------------------------------------------------------------

  // Cache page i repeats page pix of the flash.
  predicate Caches(pages: seq<Page>, used: set<nat>, i: nat, pix: nat) {
    i < |pages| && i in used && !pages[i].wr && pages[i].pix == pix
  }

  ghost predicate NotCached(pages: seq<Page>, used: set<nat>, pix: nat) {
    forall i {:trigger pages[i]} :: 0 <= i < |pages| ==> !(i in used && !pages[i].wr && pages[i].pix == pix)
  }

  ghost predicate Shape(pages: seq<Page>, used: set<nat>, flash: seq<seq<byte>>, size: nat) {
    && (forall i {:trigger i in used} :: i in used ==> i < |pages|)
    && (forall i {:trigger pages[i]} :: 0 <= i < |pages| ==> |pages[i].mem| == size && pages[i].last < U32)
    && (forall p {:trigger flash[p]} :: 0 <= p < |flash| ==> |flash[p]| == size)
    && (forall i {:trigger i in used} :: i in used && !pages[i].wr ==>
          pages[i].wrthru && !pages[i].dirty && pages[i].pix < |flash|)
  }

  // No page of the flash is cached twice.
  ghost predicate Unique(pages: seq<Page>, used: set<nat>) {
    forall i, j {:trigger i in used, j in used} ::
      i in used && j in used && i < |pages| && j < |pages| && !pages[i].wr && !pages[j].wr ==>
        pages[i].pix == pages[j].pix ==> i == j
  }

  // Cached pages equal their flash pages.
  ghost predicate Coherent(pages: seq<Page>, used: set<nat>, flash: seq<seq<byte>>) {
    forall i {:trigger i in used} :: i in used && i < |pages| && !pages[i].wr && pages[i].pix < |flash| ==>
      pages[i].mem == flash[pages[i].pix]
  }

  // What a read of flash page pix sees: its cache page, if there is one
  ghost function ShownOf(pages: seq<Page>, used: set<nat>, flash: seq<seq<byte>>, pix: nat): seq<byte>
    requires pix < |flash|
  {
    if exists i: nat :: Caches(pages, used, i, pix) then
      var i: nat :| Caches(pages, used, i, pix);
      pages[i].mem
    else flash[pix]
  }

  lemma ShownIs(pages: seq<Page>, used: set<nat>, flash: seq<seq<byte>>, i: nat, pix: nat)
    requires pix < |flash| && Unique(pages, used) && Caches(pages, used, i, pix)
    ensures ShownOf(pages, used, flash, pix) == pages[i].mem
  {
  }

  lemma ShownNot(pages: seq<Page>, used: set<nat>, flash: seq<seq<byte>>, pix: nat)
    requires pix < |flash| && NotCached(pages, used, pix)
    ensures ShownOf(pages, used, flash, pix) == flash[pix]
  {
  }

  // The cache agrees with the flash if and only if every page shows it.
  lemma AgreesIs(pages: seq<Page>, used: set<nat>, flash: seq<seq<byte>>)
    requires Unique(pages, used)
    ensures Coherent(pages, used, flash) <==>
            forall q: nat {:trigger ShownOf(pages, used, flash, q)} ::
              q < |flash| ==> ShownOf(pages, used, flash, q) == flash[q]
  {
    forall q | 0 <= q < |flash| && Coherent(pages, used, flash) ensures ShownOf(pages, used, flash, q) == flash[q] {
    }
    forall i {:trigger i in used} | i in used && i < |pages| && !pages[i].wr && pages[i].pix < |flash|
      ensures ShownOf(pages, used, flash, pages[i].pix) == pages[i].mem
    {
      ShownIs(pages, used, flash, i, pages[i].pix);
    }
  }

  // Page i is a read page that repeats another flash page than pix.
  predicate CachesOther(pages: seq<Page>, used: set<nat>, i: nat, pix: nat) {
    i < |pages| && i in used && !pages[i].wr && pages[i].pix != pix
  }

  // What is done to one flash page does not show in the others.
  lemma OthersShown(p0: seq<Page>, u0: set<nat>, f0: seq<seq<byte>>, p1: seq<Page>, u1: set<nat>, f1: seq<seq<byte>>,
                    pix: nat)
    requires Unique(p0, u0) && Unique(p1, u1) && |f0| == |f1| && |p0| == |p1|
    requires forall q {:trigger f1[q]} :: 0 <= q < |f0| && q != pix ==> f1[q] == f0[q]
    requires forall i: nat :: CachesOther(p0, u0, i, pix) <==> CachesOther(p1, u1, i, pix)
    requires forall i: nat :: CachesOther(p0, u0, i, pix) ==> p1[i].pix == p0[i].pix && p1[i].mem == p0[i].mem
    ensures forall q: nat {:trigger ShownOf(p1, u1, f1, q)} ::
              q < |f0| && q != pix ==> ShownOf(p1, u1, f1, q) == ShownOf(p0, u0, f0, q)
  {
    forall q | 0 <= q < |f0| && q != pix ensures ShownOf(p1, u1, f1, q) == ShownOf(p0, u0, f0, q) {
      if i: nat :| Caches(p0, u0, i, q) {
        assert CachesOther(p0, u0, i, pix);
        ShownIs(p0, u0, f0, i, q);
        ShownIs(p1, u1, f1, i, q);
      } else if i: nat :| Caches(p1, u1, i, q) {
        assert CachesOther(p1, u1, i, pix);
        assert Caches(p0, u0, i, q);
      } else {
        assert f1[q] == f0[q];
      }
    }
  }

  // Times of access do not show.
  lemma TouchedShown(p0: seq<Page>, p1: seq<Page>, used: set<nat>, flash: seq<seq<byte>>)
    requires Unique(p0, used) && Unique(p1, used) && |p0| == |p1|
    requires forall i {:trigger p1[i]} :: 0 <= i < |p1| ==> p1[i] == p0[i].(last := p1[i].last)
    ensures forall q: nat {:trigger ShownOf(p1, used, flash, q)} ::
              q < |flash| ==> ShownOf(p1, used, flash, q) == ShownOf(p0, used, flash, q)
  {
    OthersShown(p0, used, flash, p1, used, flash, |flash|);
  }

  // A cache that agreed agrees still if and only if the changed page does.
  lemma StaysValid(p0: seq<Page>, u0: set<nat>, f0: seq<seq<byte>>, p1: seq<Page>, u1: set<nat>, f1: seq<seq<byte>>,
                   pix: nat)
    requires Unique(p0, u0) && Unique(p1, u1) && pix < |f0| == |f1|
    requires forall q: nat {:trigger ShownOf(p1, u1, f1, q)} ::
               q < |f0| && q != pix ==> ShownOf(p1, u1, f1, q) == ShownOf(p0, u0, f0, q)
    requires f1 == f0[pix := f1[pix]]
    ensures Coherent(p0, u0, f0) ==> ShownOf(p0, u0, f0, pix) == f0[pix]
    ensures Coherent(p0, u0, f0) ==> (Coherent(p1, u1, f1) <==> ShownOf(p1, u1, f1, pix) == f1[pix])
  {
    AgreesIs(p0, u0, f0);
    AgreesIs(p1, u1, f1);
    hide Coherent, ShownOf;
    assert Coherent(p0, u0, f0) ==> ShownOf(p0, u0, f0, pix) == f0[pix];
  }

  // Not all pages are in use.
  ghost predicate SomeUnused(used: set<nat>, n: nat) {
    exists i: nat {:trigger i in used} :: i < n && i !in used
  }

  // Write pages stay in use and keep what they hold.
  ghost predicate WritePagesKept(pages: seq<Page>, used: set<nat>, pages': seq<Page>, used': set<nat>) {
    |pages'| == |pages| && forall i {:trigger i in used} :: i in used && i < |pages| && pages[i].wr ==>
      i in used' && pages'[i] == pages[i]
  }

  // ---- The time of the last access ------------------------------------------------

  // `clock` counts the accesses without wrapping around, and `stamps` says when
  // each cache page was last accessed.
  ghost predicate Timed(pages: seq<Page>, last: nat, stamps: seq<nat>, clock: nat) {
    && |stamps| == |pages| && last == clock % U32
    && forall j: nat {:trigger stamps[j]} {:trigger pages[j]} ::
         j < |pages| ==> pages[j].last == stamps[j] % U32 && stamps[j] <= clock
  }

  // No page has gone unused for 2^32 accesses.
  ghost predicate Recent(stamps: seq<nat>, clock: nat) {
    forall j: nat {:trigger stamps[j]} :: j < |stamps| ==> clock < stamps[j] + U32
  }

  // No read page was last accessed before this one.
  ghost predicate LeastRecent(pages: seq<Page>, stamps: seq<nat>, i: nat)
    requires |stamps| == |pages|
  {
    i < |pages| && forall j: nat {:trigger stamps[j]} :: j < |pages| && !pages[j].wr ==> stamps[i] <= stamps[j]
  }

  // There is a read page that was not accessed at this very time.
  ghost predicate Evictable(pages: seq<Page>, last: nat) {
    exists i: nat {:trigger pages[i]} :: i < |pages| && !pages[i].wr && pages[i].last != last
  }

  // The cache page that holds page pix, if there is one, is stamped with the time.
  ghost predicate Accessed(pages: seq<Page>, used: set<nat>, pix: nat, was: seq<nat>, stamps: seq<nat>, clock: nat) {
    if NotCached(pages, used, pix) then stamps == was
    else exists i: nat :: i < |was| && Caches(pages, used, i, pix) && stamps == was[i := clock]
  }

  lemma AccessedAt(pages: seq<Page>, used: set<nat>, i: nat, pix: nat, was: seq<nat>, clock: nat)
    requires Caches(pages, used, i, pix) && |was| == |pages|
    ensures Accessed(pages, used, pix, was, was[i := clock], clock)
  {
    assert pages[i].pix == pix;
  }

  // With time going on, any read page.
  lemma RecentEvictable(pages: seq<Page>, last: nat, stamps: seq<nat>, clock: nat)
    requires Timed(pages, last, stamps, clock) && Recent(stamps, clock)
    requires forall j: nat {:trigger stamps[j]} :: j < |pages| ==> stamps[j] < clock
    ensures Evictable(pages, last) <==> exists i: nat {:trigger pages[i]} :: i < |pages| && !pages[i].wr
  {
    forall i: nat | i < |pages| ensures pages[i].last != last {
      Elapsed(clock, stamps[i]);
    }
  }

  lemma TouchedTimed(pages: seq<Page>, last: nat, stamps: seq<nat>, clock: nat, i: nat, page: Page)
    requires Timed(pages, last, stamps, clock) && i < |pages| && page.last == last
    ensures Timed(pages[i := page], last, stamps[i := clock], clock)
  {
  }

  lemma TickTimed(pages: seq<Page>, last: nat, stamps: seq<nat>, clock: nat)
    requires Timed(pages, last, stamps, clock)
    ensures Timed(pages, (last + 1) % U32, stamps, clock + 1)
  {
  }

  class Spiffs {
    const size: nat
    const pages: array<Page>
    var used: set<nat>
    var last: nat
    var flash: seq<seq<byte>>

    ghost var clock: nat
    ghost var stamps: seq<nat>

    ghost predicate Sound()
      reads this, pages
    {
      && size > 0 && last < U32 && Shape(pages[..], used, flash, size) && Unique(pages[..], used)
      && |stamps| == pages.Length && Timed(pages[..], last, stamps, clock)
    }

    ghost predicate Valid()
      reads this, pages
    {
      Sound() && Coherent(pages[..], used, flash)
    }

    ghost function Shown(pix: nat): (page: seq<byte>)
      requires Sound() && pix < |flash|
      reads this, pages
      ensures |page| == size
      ensures Valid() ==> page == flash[pix]
    {
      ShownOf(pages[..], used, flash, pix)
    }

    // spiffs_cache_init: all pages zero and free
    constructor (size: nat, count: nat, flash: seq<seq<byte>>)
      requires size > 0 && forall p {:trigger flash[p]} :: 0 <= p < |flash| ==> |flash[p]| == size
      ensures Valid() && fresh(pages) && pages.Length == count && used == {} && this.flash == flash && this.size == size
      ensures clock == 0
    {
      this.size, this.flash := size, flash;
      clock, stamps := 0, seq(count, _ => 0);
      pages := new Page[count](_ => Page(false, false, false, 0, 0, seq(size, _ => 0)));
      used, last := {}, 0;
    }

    // spiffs_cache_page_get
    method PageGet(pix: nat) returns (r: Option<nat>)
      requires Sound()
      modifies this`stamps, pages
      ensures Sound() && (old(Valid()) ==> Valid()) && WritePagesKept(old(pages[..]), used, pages[..], used)
      ensures r.Some? ==> Caches(pages[..], used, r.value, pix)
                          && pages[..] == old(pages[..])[r.value := old(pages[r.value]).(last := last)]
      ensures stamps == if r.Some? then old(stamps)[r.value := clock] else old(stamps)
      ensures r.None? ==> pages[..] == old(pages[..]) && NotCached(pages[..], used, pix)
      ensures forall i {:trigger pages[i]} :: 0 <= i < pages.Length ==>
                pages[i] == old(pages[i]).(last := pages[i].last)
    {
      if used == {} {
        return None;
      }
      var i: nat := 0;
      while i < pages.Length
        invariant i <= pages.Length && pages[..] == old(pages[..]) && stamps == old(stamps)
        invariant forall j: nat {:trigger pages[j]} :: j < i ==> !(j in used && !pages[j].wr && pages[j].pix == pix)
      {
        if i in used && !pages[i].wr && pages[i].pix == pix {
          Touch(i);
          return Some(i);
        }
        i := i + 1;
      }
      r := None;
    }

    // Note an access.
    method Touch(i: nat)
      requires Sound() && i < pages.Length && i in used && !pages[i].wr
      modifies this`stamps, pages
      ensures Sound() && (old(Valid()) ==> Valid()) && WritePagesKept(old(pages[..]), used, pages[..], used)
      ensures pages[..] == old(pages[..])[i := old(pages[i]).(last := last)] && stamps == old(stamps)[i := clock]
      ensures pages[i] == old(pages[i]).(last := last)
      ensures forall j {:trigger pages[j]} :: 0 <= j < pages.Length && j != i ==> pages[j] == old(pages[j])
    {
      hide Timed;
      TouchedTimed(pages[..], last, stamps, clock, i, pages[i].(last := last));
      pages[i] := pages[i].(last := last);
      stamps := stamps[i := clock];
    }

    // spiffs_cache_page_free: read pages are never dirty, so nothing is written
    // back.
    method PageFree(i: nat)
      requires Sound() && i < pages.Length
      modifies this`used, pages
      ensures Sound() && (old(Valid()) ==> Valid()) && used == old(used) - {i}
      ensures forall j {:trigger pages[j]} :: 0 <= j < pages.Length && j != i ==> pages[j] == old(pages[j])
      ensures i !in old(used) ==> pages[..] == old(pages[..])
    {
      if i in used {
        used := used - {i};
        pages[i] := pages[i].(wr := false, wrthru := false, dirty := false);
      }
    }

    // spiffs_cache_page_remove_oldest for read pages
    method RemoveOldest() returns (ghost gone: Option<nat>)
      requires Sound()
      modifies this`used, pages
      ensures Sound() && (old(Valid()) ==> Valid()) && WritePagesKept(old(pages[..]), old(used), pages[..], used)
      ensures used == old(used) - (if gone.Some? then {gone.value} else {})
      ensures forall j {:trigger pages[j]} :: 0 <= j < pages.Length && gone != Some(j) ==> pages[j] == old(pages[j])
      ensures gone.Some? ==> gone.value in old(used) && Longest(old(pages[..]), last, gone.value)
      ensures gone.Some? <==> !SomeUnused(old(used), pages.Length) && Evictable(old(pages[..]), last)
      ensures gone.Some? && Recent(stamps, clock) ==> LeastRecent(old(pages[..]), stamps, gone.value)
    {
      gone := None;
      var free := SomeFree();
      if free {
        return;
      }
      hide Timed, Recent, LeastRecent;
      var i: nat, oldest: nat, cand: Option<nat> := 0, 0, None;
      while i < pages.Length
        invariant i <= pages.Length && pages[..] == old(pages[..]) && used == old(used)
        invariant cand.None? ==> oldest == 0
        invariant cand.Some? ==>
                  cand.value < i && !pages[cand.value].wr && Minus32(last, pages[cand.value].last) == oldest > 0
        invariant forall j {:trigger pages[j]} :: 0 <= j < i ==> pages[j].wr || Minus32(last, pages[j].last) <= oldest
      {
        if Minus32(last, pages[i].last) > oldest && !pages[i].wr {
          oldest, cand := Minus32(last, pages[i].last), Some(i);
        }
        i := i + 1;
      }
      NoneOlder(pages[..], last, oldest, cand);
      if cand.Some? {
        gone := cand;
        if Recent(stamps, clock) {
          LongestTimed(pages[..], last, cand.value, stamps, clock);
        }
        PageFree(cand.value);
      }
    }

    method SomeFree() returns (free: bool)
      requires Sound()
      ensures free <==> SomeUnused(used, pages.Length)
    {
      var i: nat := 0;
      while i < pages.Length
        invariant i <= pages.Length && forall j {:trigger j in used} :: 0 <= j < i ==> j in used
      {
        if i !in used {
          return true;
        }
        i := i + 1;
      }
      free := false;
    }

    // spiffs_cache_page_allocate, and what its callers put into the header
    // and the page: the first free one.  A write page keeps the bytes it finds.
    method Allocate(page: Page) returns (r: Option<nat>)
      requires Sound() && (!page.wr ==> |page.mem| == size) && page.last == last
      requires !page.wr ==> page.wrthru && !page.dirty && page.pix < |flash| && NotCached(pages[..], used, page.pix)
      modifies this`used, this`stamps, pages
      ensures Sound() && WritePagesKept(old(pages[..]), old(used), pages[..], used)
      ensures r.None? <==> !SomeUnused(old(used), pages.Length)
      ensures r.None? ==> used == old(used) && pages[..] == old(pages[..]) && stamps == old(stamps)
      ensures r.Some? ==> r.value < pages.Length && r.value !in old(used) && used == old(used) + {r.value}
                          && pages[..] == old(pages[..])[r.value :=
                               if page.wr then page.(mem := old(pages[..])[r.value].mem) else page]
                          && stamps == old(stamps)[r.value := clock]
      ensures old(Valid()) && (page.wr || page.mem == flash[page.pix]) ==> Valid()
    {
      var i: nat := 0;
      while i < pages.Length
        invariant i <= pages.Length && forall j {:trigger j in used} :: 0 <= j < i ==> j in used
        invariant used == old(used) && pages[..] == old(pages[..]) && stamps == old(stamps)
      {
        if i !in used {
          TouchedTimed(pages[..], last, stamps, clock, i, if page.wr then page.(mem := pages[i].mem) else page);
          used := used + {i};
          pages[i] := if page.wr then page.(mem := pages[i].mem) else page;
          stamps := stamps[i := clock];
          return Some(i);
        }
        i := i + 1;
      }
      r := None;
    }

    // spiffs_phys_rd inside one page; lookups of the second layer do not fill
    // the cache.
    method PhysRd(lookup2: bool, addr: nat, len: nat) returns (dst: seq<byte>)
      requires Sound() && addr / size < |flash| && addr % size + len <= size
      modifies this`used, this`last, this`clock, this`stamps, pages
      ensures Sound() && (old(Valid()) ==> Valid())
      ensures dst == old(Shown(addr / size))[addr % size..addr % size + len]
      ensures WritePagesKept(old(pages[..]), old(used), pages[..], used)
      ensures !NotCached(pages[..], used, addr / size) <==>
              || !NotCached(old(pages[..]), old(used), addr / size)
              || (!lookup2 && (SomeUnused(old(used), pages.Length) || Evictable(old(pages[..]), last)))
      ensures clock == old(clock) + 1 && Accessed(pages[..], used, addr / size, old(stamps), stamps, clock)
      ensures Recent(old(stamps), clock) ==> OldestLeft(old(pages[..]), old(used), old(stamps), pages[..], used)
    {
      assert |flash[addr / size]| == size;
      hide Timed, Recent, LeastRecent, Evictable, Accessed, OldestLeft, Shape, Coherent, Unique, ShownOf;
      var pix, off := addr / size, addr % size;
      ghost var p0, stamps0, agreed := pages[..], stamps, Valid();
      var cp := PageGet(pix);
      ghost var p1 := pages[..];
      TickTimed(pages[..], last, stamps, clock);
      last := (last + 1) % U32;
      clock := clock + 1;
      if cp.Some? {
        CachedBefore(p0, p1, used, cp.value, pix);
        TouchedShown(p0, p1, used, flash);
        dst := ReadHit(cp.value, pix, off, len);
        AccessedAt(pages[..], used, cp.value, pix, stamps0, clock);
        assert stamps == stamps0[cp.value := clock];
        StillThere(p0, stamps0, pages[..], used);
        KeptTwice(p0, used, p1, used, pages[..], used);
        return;
      }
      ShownNot(p0, used, flash, pix);
      if lookup2 {
        NoneLeft(p0, used, stamps0, pages[..], used);
        NotAccessed(p0, used, pix, stamps0, clock);
        return flash[pix][off..off + len];
      }
      dst := ReadMiss(pix, off, len);
    }

    // The page is in the cache.
    method ReadHit(i: nat, pix: nat, off: nat, len: nat) returns (dst: seq<byte>)
      requires Sound() && pix < |flash| && off + len <= size && Caches(pages[..], used, i, pix)
      modifies this`stamps, pages
      ensures Sound() && (old(Valid()) ==> Valid()) && dst == old(Shown(pix))[off..off + len]
      ensures WritePagesKept(old(pages[..]), used, pages[..], used) && Caches(pages[..], used, i, pix)
      ensures pages[..] == old(pages[..])[i := old(pages[i]).(last := last)] && stamps == old(stamps)[i := clock]
    {
      hide Timed;
      ShownIs(pages[..], used, flash, i, pix);
      assert pages[..][i] == pages[i];
      Touch(i);
      assert pages[..][i] == pages[i];
      dst := pages[i].mem[off..off + len];
    }

    // A page that is not cached takes the place of the one that was not used
    // for the longest time.
    method ReadMiss(pix: nat, off: nat, len: nat) returns (dst: seq<byte>)
      requires Sound() && pix < |flash| && off + len <= size && NotCached(pages[..], used, pix)
      modifies this`used, this`stamps, pages
      ensures Sound() && (old(Valid()) ==> Valid()) && dst == flash[pix][off..off + len]
      ensures WritePagesKept(old(pages[..]), old(used), pages[..], used)
      ensures !NotCached(pages[..], used, pix) <==>
              SomeUnused(old(used), pages.Length) || Evictable(old(pages[..]), last)
      ensures Accessed(pages[..], used, pix, old(stamps), stamps, clock)
      ensures Recent(old(stamps), clock) ==> OldestLeft(old(pages[..]), old(used), old(stamps), pages[..], used)
    {
      hide Timed, Recent, LeastRecent, Evictable;
      ghost var p0, u0, stamps0 := pages[..], used, stamps;
      ghost var gone := RemoveOldest();
      ghost var p1, u1 := pages[..], used;
      StillNotCached(p0, u0, p1, u1, gone, pix);
      var r := Allocate(Page(false, true, false, pix, last, flash[pix]));
      KeptTwice(p0, u0, p1, u1, pages[..], used);
      UnusedAfter(u0, u1, gone, pages.Length);
      if r.Some? {
        assert pages[..][r.value] == pages[r.value] && Caches(pages[..], used, r.value, pix);
        if Recent(stamps0, clock) {
          OneLeft(p0, u0, stamps0, p1, u1, pages[..], used, gone, r.value);
        }
      } else {
        NoneLeft(p0, u0, stamps0, pages[..], used);
      }
      dst := if r.Some? then pages[r.value].mem[off..off + len] else flash[pix][off..off + len];
    }

    // The write to the flash itself
    method HalWrite(pix: nat, off: nat, src: seq<byte>)
      requires Sound() && pix < |flash| && off + |src| <= size
      modifies this`flash
      ensures Sound() && flash == old(flash)[pix := Laid(old(flash)[pix], off, src)]
      ensures OnlyShows(old(pages[..]), old(used), old(flash), pix)
      ensures NotCached(pages[..], used, pix) ==> Shown(pix) == flash[pix]
    {
      hide Laid;
      ghost var f0 := flash;
      flash := flash[pix := Laid(flash[pix], off, src)];
      OthersShown(pages[..], used, f0, pages[..], used, flash, pix);
      if NotCached(pages[..], used, pix) {
        ShownNot(pages[..], used, flash, pix);
      }
    }

    // Nothing but page pix shows anything else than before.
    ghost predicate OnlyShows(p0: seq<Page>, u0: set<nat>, f0: seq<seq<byte>>, pix: nat)
      requires Sound()
      reads this, pages
    {
      |f0| == |flash| && forall q: nat {:trigger ShownOf(pages[..], used, flash, q)} ::
        q < |flash| && q != pix ==> ShownOf(pages[..], used, flash, q) == ShownOf(p0, u0, f0, q)
    }

    // The page is being deleted and leaves the cache.
    method WriteDeleted(i: nat, pix: nat, off: nat, src: seq<byte>)
      requires Sound() && pix < |flash| && off + |src| <= size && Caches(pages[..], used, i, pix)
      modifies this`used, this`flash, pages
      ensures Sound() && WritePagesKept(old(pages[..]), old(used), pages[..], used)
      ensures flash == old(flash)[pix := Laid(old(flash)[pix], off, src)]
      ensures OnlyShows(old(pages[..]), old(used), old(flash), pix) && Shown(pix) == flash[pix]
    {
      hide Laid;
      ghost var p0, u0, f0 := pages[..], used, flash;
      assert p0[i] == pages[i];
      PageFree(i);
      flash := flash[pix := Laid(flash[pix], off, src)];
      ghost var p1 := pages[..];
      assert forall j :: 0 <= j < |p1| && j != i ==> p1[j] == p0[j];
      OthersShown(p0, u0, f0, p1, used, flash, pix);
      ShownNot(p1, used, flash, pix);
      assert pages[..] == p1;
    }

    // The page is changed in the cache and in the flash.
    method WriteBoth(i: nat, pix: nat, off: nat, src: seq<byte>)
      requires Sound() && pix < |flash| && off + |src| <= size && Caches(pages[..], used, i, pix)
      modifies this`last, this`clock, this`stamps, this`flash, pages
      ensures Sound() && WritePagesKept(old(pages[..]), used, pages[..], used)
      ensures flash == old(flash)[pix := Laid(old(flash)[pix], off, src)]
      ensures OnlyShows(old(pages[..]), used, old(flash), pix) && Shown(pix) == Laid(old(Shown(pix)), off, src)
      ensures clock == old(clock) + 1 && stamps == old(stamps)[i := clock]
    {
      hide Laid, Timed;
      ghost var p0, f0 := pages[..], flash;
      ShownIs(p0, used, f0, i, pix);
      assert p0[i] == pages[i];
      TickTimed(p0, last, stamps, clock);
      last := (last + 1) % U32;
      clock := clock + 1;
      TouchedTimed(p0, last, stamps, clock, i, pages[i].(mem := Laid(pages[i].mem, off, src), last := last));
      pages[i] := pages[i].(mem := Laid(pages[i].mem, off, src), last := last);
      stamps := stamps[i := clock];
      flash := flash[pix := Laid(flash[pix], off, src)];
      ghost var p1 := pages[..];
      assert p1 == p0[i := p1[i]];
      OthersShown(p0, used, f0, p1, used, flash, pix);
      ShownIs(p1, used, flash, i, pix);
    }

    // The write to a page that is cached
    method WriteCached(i: nat, com: Com, lookup: bool, pix: nat, off: nat, src: seq<byte>)
      requires Sound() && pix < |flash| && off + |src| <= size && Caches(pages[..], used, i, pix)
      modifies this`used, this`last, this`clock, this`stamps, this`flash, pages
      ensures Sound() && WritePagesKept(old(pages[..]), old(used), pages[..], used)
      ensures flash == old(flash)[pix := Laid(old(flash)[pix], off, src)]
      ensures OnlyShows(old(pages[..]), old(used), old(flash), pix)
      ensures Shown(pix) == if com == Delete && !lookup then flash[pix]
                            else if com == WriteThrough then old(Shown(pix))
                            else Laid(old(Shown(pix)), off, src)
      ensures clock == old(clock) + (if Ticks(com, lookup) then 1 else 0)
      ensures stamps == if Ticks(com, lookup) then old(stamps)[i := clock] else old(stamps)
    {
      hide Laid, Shape, Coherent, OnlyShows, Timed;
      if com == WriteThrough {
        ShownIs(pages[..], used, flash, i, pix);
        HalWrite(pix, off, src);
        ShownIs(pages[..], used, flash, i, pix);
      } else if com == Delete && !lookup {
        WriteDeleted(i, pix, off, src);
      } else {
        WriteBoth(i, pix, off, src);
      }
    }

    // Where nothing showed a change of the times of access, either
    lemma ShowsThrough(p0: seq<Page>, p1: seq<Page>, u0: set<nat>, f0: seq<seq<byte>>, pix: nat)
      requires Sound() && Unique(p0, u0) && Unique(p1, u0) && |p0| == |p1| && pix < |f0|
      requires forall i {:trigger p1[i]} :: 0 <= i < |p1| ==> p1[i] == p0[i].(last := p1[i].last)
      ensures OnlyShows(p1, u0, f0, pix) ==> OnlyShows(p0, u0, f0, pix)
      ensures ShownOf(p1, u0, f0, pix) == ShownOf(p0, u0, f0, pix)
    {
      TouchedShown(p0, p1, u0, f0);
    }

    lemma StaysAgreed(p0: seq<Page>, u0: set<nat>, f0: seq<seq<byte>>, pix: nat)
      requires Sound() && Unique(p0, u0) && pix < |f0| && OnlyShows(p0, u0, f0, pix) && Coherent(p0, u0, f0)
      requires flash == f0[pix := flash[pix]]
      ensures ShownOf(p0, u0, f0, pix) == f0[pix]
      ensures Valid() <==> Shown(pix) == flash[pix]
    {
      StaysValid(p0, u0, f0, pages[..], used, flash, pix);
    }

    // spiffs_phys_wr inside one page.  The flash always gets the data; only
    // writing through to a page that is cached leaves the old copy as it is, and
    // deleting lets the flash show again.
    method PhysWr(com: Com, lookup: bool, addr: nat, src: seq<byte>)
      requires Sound() && addr / size < |flash| && addr % size + |src| <= size
      modifies this`used, this`last, this`clock, this`stamps, this`flash, pages
      ensures Sound() && WritePagesKept(old(pages[..]), old(used), pages[..], used)
      ensures flash == old(flash)[addr / size := Laid(old(flash)[addr / size], addr % size, src)]
      ensures OnlyShows(old(pages[..]), old(used), old(flash), addr / size)
      ensures Shown(addr / size) ==
              if NotCached(old(pages[..]), old(used), addr / size) || (com == Delete && !lookup) then flash[addr / size]
              else if com == WriteThrough then old(Shown(addr / size))
              else Laid(old(Shown(addr / size)), addr % size, src)
      ensures old(Valid()) ==>
                (Valid() <==> !(com == WriteThrough && !NotCached(old(pages[..]), old(used), addr / size)
                                && old(flash)[addr / size][addr % size..addr % size + |src|] != src))
      ensures Accessed(old(pages[..]), old(used), addr / size, old(stamps), stamps, clock)
      ensures clock == old(clock) +
                if Ticks(com, lookup) && !NotCached(old(pages[..]), old(used), addr / size) then 1 else 0
    {
      hide Laid, Shape, Unique, Coherent, OnlyShows, ShownOf, Timed, Accessed;
      ghost var stamps0 := stamps;
      var pix, off := addr / size, addr % size;
      ghost var p0, u0, f0, agreed := pages[..], used, flash, Valid();
      var cp := PageGet(pix);
      ghost var p1 := pages[..];
      if cp.None? {
        HalWrite(pix, off, src);
        NotAccessed(p0, u0, pix, stamps0, clock);
      } else {
        CachedBefore(p0, p1, used, cp.value, pix);
        WriteCached(cp.value, com, lookup, pix, off, src);
        KeptTwice(p0, u0, p1, u0, pages[..], used);
        AccessedAt(p0, u0, cp.value, pix, stamps0, clock);
        assert stamps == stamps0[cp.value := clock];
      }
      ShowsThrough(p0, p1, u0, f0, pix);
      if agreed {
        StaysAgreed(p0, u0, f0, pix);
        LaidSame(f0[pix], off, src);
      }
    }

    // spiffs_cache_drop_page
    method DropPage(pix: nat)
      requires Sound()
      modifies this`used, this`stamps, pages
      ensures Sound() && (old(Valid()) ==> Valid())
      ensures WritePagesKept(old(pages[..]), old(used), pages[..], used) && NotCached(pages[..], used, pix)
    {
      var cp := PageGet(pix);
      if cp.Some? {
        PageFree(cp.value);
      }
    }

    // spiffs_cache_page_allocate_by_fd: a write page for an object
    method AllocateByFd(objId: nat) returns (r: Option<nat>)
      requires Sound()
      modifies this`used, this`stamps, pages
      ensures r.Some? <==> SomeUnused(old(used), pages.Length) || Evictable(old(pages[..]), last)
      ensures Recent(old(stamps), clock) ==> OldestLeft(old(pages[..]), old(used), old(stamps), pages[..], used)
      ensures Sound() && (old(Valid()) ==> Valid()) && WritePagesKept(old(pages[..]), old(used), pages[..], used)
      ensures r.Some? ==> r.value < pages.Length && r.value in used && pages[r.value].wr && pages[r.value].pix == objId
                          && stamps == old(stamps)[r.value := clock]
      ensures r.None? ==> stamps == old(stamps)
    {
      hide Timed, Recent, LeastRecent, Evictable;
      ghost var p0, u0, stamps0 := pages[..], used, stamps;
      ghost var gone := RemoveOldest();
      ghost var p1, u1 := pages[..], used;
      r := Allocate(Page(true, false, false, objId, last, []));
      KeptTwice(p0, u0, p1, u1, pages[..], used);
      UnusedAfter(u0, u1, gone, pages.Length);
      if r.Some? {
        if Recent(stamps0, clock) {
          OneLeft(p0, u0, stamps0, p1, u1, pages[..], used, gone, r.value);
        }
      } else {
        NoneLeft(p0, u0, stamps0, pages[..], used);
      }
    }
  }

  // One page of one byte: read it, write it through, and the cache still shows
  // the old byte.
  method StalePage() returns (read: seq<byte>, flash: seq<seq<byte>>)
    ensures read == [0] && flash == [[1]]
  {
    var fs := new Spiffs(1, 1, [[0]]);
    assert 0 !in fs.used;
    var first := fs.PhysRd(false, 0, 1);
    fs.PhysWr(WriteThrough, false, 0, [1]);
    read := fs.PhysRd(false, 0, 1);
    flash := fs.flash;
    assert fs.flash[0] == [1];
  }

  lemma CachedBefore(p0: seq<Page>, p1: seq<Page>, used: set<nat>, i: nat, pix: nat)
    requires Caches(p1, used, i, pix) && |p0| == |p1|
    requires forall j {:trigger p1[j]} :: 0 <= j < |p1| ==> p1[j] == p0[j].(last := p1[j].last)
    ensures !NotCached(p0, used, pix) && Caches(p0, used, i, pix)
  {
    assert p1[i] == p0[i].(last := p1[i].last);
  }

  lemma StillNotCached(p0: seq<Page>, u0: set<nat>, p1: seq<Page>, u1: set<nat>, gone: Option<nat>, pix: nat)
    requires NotCached(p0, u0, pix) && |p1| == |p0| && u1 == u0 - (if gone.Some? then {gone.value} else {})
    requires forall j {:trigger p1[j]} :: 0 <= j < |p1| && gone != Some(j) ==> p1[j] == p0[j]
    ensures NotCached(p1, u1, pix)
  {
  }

  lemma KeptTwice(p0: seq<Page>, u0: set<nat>, p1: seq<Page>, u1: set<nat>, p2: seq<Page>, u2: set<nat>)
    requires WritePagesKept(p0, u0, p1, u1) && WritePagesKept(p1, u1, p2, u2)
    ensures WritePagesKept(p0, u0, p2, u2)
  {
  }

  // Whatever read page has left the cache, none was last accessed before it.
  ghost predicate OldestLeft(p0: seq<Page>, u0: set<nat>, stamps: seq<nat>, p1: seq<Page>, u1: set<nat>)
    requires |stamps| == |p0|
  {
    forall i: nat {:trigger i in u0} :: i in u0 && i < |p0| && !p0[i].wr && !Caches(p1, u1, i, p0[i].pix) ==>
      LeastRecent(p0, stamps, i)
  }

  lemma UnusedAfter(u0: set<nat>, u1: set<nat>, gone: Option<nat>, n: nat)
    requires u1 == u0 - (if gone.Some? then {gone.value} else {})
    requires gone.Some? ==> gone.value < n && gone.value in u0
    ensures SomeUnused(u1, n) <==> gone.Some? || SomeUnused(u0, n)
  {
    if SomeUnused(u0, n) {
      var i: nat :| i < n && i !in u0;
      assert i !in u1;
    }
    if SomeUnused(u1, n) {
      var i: nat :| i < n && i !in u1;
      assert i !in u0 || gone == Some(i);
    }
    if gone.Some? {
      assert gone.value !in u1;
    }
  }

  // A page that goes and one that comes in its place, or in an unused one
  lemma OneLeft(p0: seq<Page>, u0: set<nat>, stamps: seq<nat>, p1: seq<Page>, u1: set<nat>,
                p2: seq<Page>, u2: set<nat>, gone: Option<nat>, r: nat)
    requires |stamps| == |p0| == |p1| == |p2| && r < |p0|
    requires u1 == u0 - (if gone.Some? then {gone.value} else {}) && r !in u1 && u2 == u1 + {r}
    requires forall j {:trigger p1[j]} :: 0 <= j < |p1| && gone != Some(j) ==> p1[j] == p0[j]
    requires p2 == p1[r := p2[r]]
    requires gone.Some? ==> LeastRecent(p0, stamps, gone.value)
    ensures OldestLeft(p0, u0, stamps, p2, u2)
  {
    hide LeastRecent;
  }

  lemma StillThere(p0: seq<Page>, stamps: seq<nat>, p1: seq<Page>, used: set<nat>)
    requires |stamps| == |p0| == |p1|
    requires forall j {:trigger p1[j]} :: 0 <= j < |p1| ==> p1[j] == p0[j].(last := p1[j].last)
    ensures OldestLeft(p0, used, stamps, p1, used)
  {
    hide LeastRecent;
  }

  lemma NotAccessed(pages: seq<Page>, used: set<nat>, pix: nat, stamps: seq<nat>, clock: nat)
    requires NotCached(pages, used, pix)
    ensures Accessed(pages, used, pix, stamps, stamps, clock)
  {
  }

  lemma NoneLeft(p0: seq<Page>, u0: set<nat>, stamps: seq<nat>, p1: seq<Page>, u1: set<nat>)
    requires |stamps| == |p0| == |p1| && p1 == p0 && u1 == u0
    ensures OldestLeft(p0, u0, stamps, p1, u1)
  {
  }

  lemma NoneOlder(pages: seq<Page>, last: nat, oldest: nat, cand: Option<nat>)
    requires last < U32 && forall j {:trigger pages[j]} :: 0 <= j < |pages| ==> pages[j].last < U32
    requires cand.None? ==> oldest == 0
    requires cand.Some? ==>
               && cand.value < |pages| && !pages[cand.value].wr
               && Minus32(last, pages[cand.value].last) == oldest > 0
    requires forall j {:trigger pages[j]} :: 0 <= j < |pages| ==> pages[j].wr || Minus32(last, pages[j].last) <= oldest
    ensures cand.Some? <==> Evictable(pages, last)
  {
    if cand.None? {
      forall j: nat | j < |pages| && !pages[j].wr ensures pages[j].last == last {
        assert Minus32(last, pages[j].last) == 0;
      }
    }
  }

  lemma LongestTimed(pages: seq<Page>, last: nat, i: nat, stamps: seq<nat>, clock: nat)
    requires last < U32 && Longest(pages, last, i) && Timed(pages, last, stamps, clock) && Recent(stamps, clock)
    ensures LeastRecent(pages, stamps, i)
  {
    LongestUnused(pages, last, i, clock, stamps);
  }

  // A read page that has not been used for the longest time
  ghost predicate Longest(pages: seq<Page>, last: nat, i: nat)
    requires last < U32
  {
    && i < |pages| && !pages[i].wr && pages[i].last < U32
    && forall j {:trigger pages[j]} :: 0 <= j < |pages| && !pages[j].wr && pages[j].last < U32 ==>
         Minus32(last, pages[j].last) <= Minus32(last, pages[i].last)
  }

  // As long as no page goes unused for 2^32 accesses, it is the one that was
  // accessed first.
  lemma LongestUnused(pages: seq<Page>, last: nat, i: nat, clock: nat, stamps: seq<nat>)
    requires last < U32 && Longest(pages, last, i) && last == clock % U32 && |stamps| == |pages|
    requires forall j {:trigger stamps[j]} :: 0 <= j < |pages| ==>
               pages[j].last == stamps[j] % U32 && stamps[j] <= clock < stamps[j] + U32
    ensures forall j {:trigger stamps[j]} :: 0 <= j < |pages| && !pages[j].wr ==> stamps[i] <= stamps[j]
  {
    hide Minus32;
    Elapsed(clock, stamps[i]);
    forall j: nat | j < |pages| && !pages[j].wr
      ensures stamps[i] <= stamps[j]
    {
      Elapsed(clock, stamps[j]);
    }
  }
}
