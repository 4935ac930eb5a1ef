// The geometry of a FAT volume: chosen when it is formatted, and derived again
// from the boot record when it is mounted.

module FatFormat {
  import opened Numbers
  import opened FatEntry
  import opened Options
  import Data = FatData

  const MAX_FAT12: nat := 0xFF5
  const MAX_FAT16: nat := 0xFFF5
  const MAX_FAT32: nat := 0xFFF_FFF5
  const SS: nat := 512
  const DWORD: nat := 0x1_0000_0000
  const SZDIRE: nat := 32

  // The fields of the boot record that matter, as wide as they are
  datatype Record = Record(bytsPerSec: nat, secPerClus: nat, rsvdSecCnt: nat, numFats: nat, rootEntCnt: nat,
                           totSec16: nat, totSec32: nat, fatSz16: nat, fatSz32: nat, fsVer32: nat,
                           named32: bool, signed: bool)

  datatype Geometry = Geometry(kind: Kind, nFatent: nat, fatbase: nat, fsize: nat, nFats: nat, csize: nat,
                               database: nat,
                               rootEntries: nat)

  predicate PowerOfTwo(a: nat) {
    a in {1, 2, 4, 8, 16, 32, 64, 128}
  }

  // ---- Mounting ---------------------------------------------------------------------

  // check_fs on a record with a valid jump code
  predicate IsFat(r: Record) {
    || (r.signed && r.named32)
    || (&& r.bytsPerSec == SS && PowerOfTwo(r.secPerClus) && r.rsvdSecCnt != 0 && 1 <= r.numFats <= 2
        && r.rootEntCnt != 0 && (r.totSec16 >= 128 || r.totSec32 >= 0x1_0000) && r.fatSz16 != 0)
  }

  function FatSize(r: Record): nat {
    if r.fatSz16 != 0 then r.fatSz16 else r.fatSz32
  }

  function Sectors(r: Record): nat {
    if r.totSec16 != 0 then r.totSec16 else r.totSec32
  }

  // Reserved sectors, FATs and static root directory
  function SystemArea(r: Record): nat {
    r.rsvdSecCnt + FatSize(r) * r.numFats + r.rootEntCnt / (SS / SZDIRE)
  }

  // The same as mount_volume adds it up, in 32 bits
  function SystemSectors(r: Record): nat {
    SystemArea(r) % DWORD
  }

  function KindOf(nclst: nat): Option<Kind> {
    if nclst == 0 then None
    else if nclst <= MAX_FAT12 then Some(Fat12)
    else if nclst <= MAX_FAT16 then Some(Fat16)
    else if nclst <= MAX_FAT32 then Some(Fat32)
    else None
  }

  // Bytes the entries need
  function NeededBytes(kind: Kind, n: nat): nat {
    match kind
    case Fat32 => n * 4
    case Fat16 => n * 2
    case Fat12 => n * 3 / 2 + n % 2
  }

  // The FAT branch of mount_volume, on the boot record at sector bsect
  function Mount(r: Record, bsect: nat): Option<Geometry> {
    if !IsFat(r) || r.bytsPerSec != SS || !(1 <= r.numFats <= 2) || !PowerOfTwo(r.secPerClus)
       || r.rootEntCnt % (SS / SZDIRE) != 0 || r.rsvdSecCnt == 0 || Sectors(r) < SystemSectors(r) then None
    else
      var nclst := (Sectors(r) - SystemSectors(r)) / r.secPerClus;
      match KindOf(nclst)
      case None => None
      case Some(kind) =>
        var n := nclst + 2;
        if (kind == Fat32 && (r.fsVer32 != 0 || r.rootEntCnt != 0)) || (kind != Fat32 && r.rootEntCnt == 0) then None
        else if FatSize(r) < (NeededBytes(kind, n) + (SS - 1)) / SS then None
        else Some(Geometry(kind, n, bsect + r.rsvdSecCnt, FatSize(r), r.numFats, r.secPerClus,
                           bsect + SystemSectors(r), r.rootEntCnt))
  }

  // A mounted volume has room in its FAT for all its entries, and room in the
  // volume for all its clusters.  Its FATs end before its data if and only if
  // the system area does not wrap around.
  lemma MountedFits(r: Record, bsect: nat)
    requires Mount(r, bsect).Some? && r.rootEntCnt < DWORD
    ensures var g := Mount(r, bsect).value;
      && g.nFatent >= 3 && g.nFatent < Limit(g.kind) && Offset(g.kind, g.nFatent - 1) + Touched(g.kind) <= SS * g.fsize
      && (g.fatbase + g.nFats * g.fsize <= g.database <==> SystemArea(r) < DWORD)
      && g.csize > 0 && g.database + g.csize * (g.nFatent - 2) <= bsect + Sectors(r)
  {
    var room: nat := Sectors(r) - SystemSectors(r);
    var g := Mount(r, bsect).value;
    QuotientFits(room, r.secPerClus);
    EntriesFit(g.kind, g.nFatent, g.fsize);
    TwoFats(g.nFats, g.fsize);
    hide NeededBytes;
  }

  // Every cluster of a mounted volume lies inside its data area, cluster 2 at the
  // front, and one behind the other.
  lemma MountedClusters(r: Record, bsect: nat, c: nat)
    requires Mount(r, bsect).Some? && r.rootEntCnt < DWORD && 2 <= c < Mount(r, bsect).value.nFatent
    ensures var g := Mount(r, bsect).value;
      var base := Data.ClusterBase(g.database, g.csize, c);
      && g.database <= base && base + g.csize <= bsect + Sectors(r)
      && (c == 2 ==> base == g.database)
      && (c + 1 < g.nFatent ==> Data.ClusterBase(g.database, g.csize, c + 1) == base + g.csize)
  {
    MountedFits(r, bsect);
    var g := Mount(r, bsect).value;
    hide Mount;
    MulOrder(c - 1, g.nFatent - 2, g.csize);
    assert g.csize * (c - 1) == g.csize * (c - 2) + g.csize;
  }

  // Two FATs of 2^31 sectors each: their sum is lost, and the data area starts
  // where the first FAT does.
  lemma WrappedExample()
    ensures var r := Record(SS, 1, 32, 2, 0, 0, 0x2_0000, 0, 0x8000_0000, 0, true, true);
      Mount(r, 0).Some? && Mount(r, 0).value.database == Mount(r, 0).value.fatbase == 32
  {
  }

  lemma EntriesFit(kind: Kind, n: nat, fsize: nat)
    requires n >= 3 && (NeededBytes(kind, n) + (SS - 1)) / SS <= fsize
    ensures Offset(kind, n - 1) + Touched(kind) <= SS * fsize
  {
    Rounded(NeededBytes(kind, n));
    LastEntry(kind, n);
    hide NeededBytes, Offset, Touched;
  }

  lemma LastEntry(kind: Kind, n: nat)
    requires n >= 3
    ensures Offset(kind, n - 1) + Touched(kind) <= NeededBytes(kind, n)
  {
    match kind
    case Fat12 => assert n - 1 + (n - 1) / 2 + 2 <= n * 3 / 2 + n % 2;
    case Fat16 =>
    case Fat32 =>
  }

  lemma TwoFats(n: nat, fsize: nat)
    ensures n * fsize == fsize * n
  {
  }

  lemma QuotientFits(a: nat, b: nat)
    requires b > 0
    ensures b * (a / b) <= a
  {
  }

  lemma Rounded(bytes: nat)
    ensures bytes <= SS * ((bytes + (SS - 1)) / SS)
  {
  }

  // ---- Formatting ---------------------------------------------------------------------

  // What f_mkfs decides before it writes the boot record
  datatype Plan = Plan(kind: Kind, pau: nat, szRsv: nat, szFat: nat, szDir: nat, nClst: nat)

  // The boot record of a plan, with every field cut to its width
  function RecordOf(p: Plan, szVol: nat, nFat: nat, nRoot: nat): Record {
    Record(SS, p.pau % 0x100, p.szRsv % 0x1_0000, nFat % 0x100, (if p.kind == Fat32 then 0 else nRoot) % 0x1_0000,
           if szVol < 0x1_0000 then szVol else 0, if szVol < 0x1_0000 then 0 else szVol,
           if p.kind == Fat32 then 0 else p.szFat % 0x1_0000, if p.kind == Fat32 then p.szFat else 0, 0,
           p.kind == Fat32, true)
  }

  // The cluster size tables for FAT and FAT32, without their end marks
  const CST: seq<nat> := [1, 4, 16, 64, 256, 512]
  const CST32: seq<nat> := [1, 2, 4, 8, 16, 32]

  const SIZES: seq<nat> := [1, 2, 4, 8, 16, 32, 64]

  // n has reached so many steps of the table, and the next one not.
  predicate Reached(n: nat, table: seq<nat>, step: nat) {
    step <= |table| && (forall j :: 0 <= j < step ==> table[j] <= n) && (step < |table| ==> n < table[step])
  }

  // Automatic selection of the cluster size: 2 to the number of steps of the
  // table that the volume has reached
  method AutoAu(n: nat, table: seq<nat>) returns (pau: nat)
    requires |table| == 6
    ensures exists step: nat {:trigger Reached(n, table, step)} :: Reached(n, table, step) && pau == SIZES[step]
  {
    pau := 1;
    var i: nat := 0;
    while i < |table| && table[i] <= n
      invariant i <= 6 && pau == SIZES[i]
      invariant forall j :: 0 <= j < i ==> table[j] <= n
    {
      i, pau := i + 1, pau * 2;
    }
    assert Reached(n, table, i);
  }

  // Size of the FAT for an estimated number of clusters, in bytes
  function FatBytes(kind: Kind, n: nat): nat {
    match kind
    case Fat32 => n * 4 + 8
    case Fat16 => n * 2 + 4
    case Fat12 => (n * 3 + 1) / 2 + 3
  }

  // The same in sectors, with the wrap-around of 32 bits
  function FatSectors(kind: Kind, n: nat): nat {
    (FatBytes(kind, n) % DWORD + SS - 1) % DWORD / SS
  }

  datatype Decision = Accept(plan: Plan) | Retry(kind: Kind, szAu: nat) | Abort

  // The cluster size that is selected for a volume of this size
  function AutoSize(kind: Kind, szVol: nat): (pau: nat)
    ensures pau > 0
  {
    if kind == Fat32 then
      if szVol < 0x2_0000 then 1 else if szVol < 0x4_0000 then 2 else if szVol < 0x8_0000 then 4
      else if szVol < 0x10_0000 then 8 else if szVol < 0x20_0000 then 16 else if szVol < 0x40_0000 then 32 else 64
    else
      if szVol < 0x1000 then 1 else if szVol < 0x4000 then 2 else if szVol < 0x1_0000 then 4
      else if szVol < 0x4_0000 then 8 else if szVol < 0x10_0000 then 16 else if szVol < 0x20_0000 then 32 else 64
  }

  lemma AutoSizeIs(kind: Kind, szVol: nat, step: nat)
    requires if kind == Fat32 then Reached(szVol / 0x2_0000, CST32, step) else Reached(szVol / 0x1000, CST, step)
    ensures AutoSize(kind, szVol) == SIZES[step]
  {
    var n := if kind == Fat32 then szVol / 0x2_0000 else szVol / 0x1000;
    if step > 0 {
      assert (if kind == Fat32 then CST32 else CST)[step - 1] <= n;
    }
  }

  function SizeFor(kind: Kind, szAu: nat, szVol: nat): (pau: nat)
    ensures pau > 0
  {
    if szAu != 0 then szAu else AutoSize(kind, szVol)
  }

  // The FAT sub-type for an estimated number of clusters
  function SubType(kind: Kind, n: nat): Kind {
    if kind == Fat32 then Fat32 else if n > MAX_FAT12 then Fat16 else Fat12
  }

  // Sectors in front of the data area, for clusters of pau sectors
  function InFront(kind: Kind, pau: nat, szVol: nat, nFat: nat, nRoot: nat): nat
    requires pau > 0
  {
    if kind == Fat32 then 32 + FatSectors(Fat32, szVol / pau) * nFat
    else 1 + FatSectors(kind, szVol / pau) * nFat + nRoot * SZDIRE / SS
  }

  // Is there room for sixteen clusters behind them?
  predicate Room(kind: Kind, pau: nat, szVol: nat, nFat: nat, nRoot: nat)
    requires pau > 0
  {
    InFront(kind, pau, szVol, nFat, nRoot) + pau * 16 <= szVol
  }

  // The clusters of the volume
  function Clusters(kind: Kind, pau: nat, szVol: nat, nFat: nat, nRoot: nat): nat
    requires pau > 0
  {
    var front := InFront(kind, pau, szVol, nFat, nRoot);
    if front <= szVol then (szVol - front) / pau else 0
  }

  // A volume of this type with clusters of this size has room, and a number of
  // clusters inside the limits of the type.
  predicate Works(kind: Kind, pau: nat, szVol: nat, nFat: nat, nRoot: nat)
    requires pau > 0
  {
    && Room(kind, pau, szVol, nFat, nRoot)
    && var n := Clusters(kind, pau, szVol, nFat, nRoot);
       match kind
       case Fat12 => szVol / pau <= MAX_FAT12
       case Fat16 => MAX_FAT12 < n <= MAX_FAT16
       case Fat32 => MAX_FAT16 < n && szVol / pau <= MAX_FAT32
  }

  // Sectors in use before the data area
  function Used(p: Plan, nFat: nat): nat {
    p.szRsv + p.szFat * nFat + p.szDir
  }

  // Cluster size, FAT sub-type and sizes from an estimate of the number of
  // clusters.  The erase block is one sector, so that nothing needs to be
  // aligned.
  method Estimate(kind0: Kind, szAu: nat, szVol: nat, nRoot: nat) returns (r: Option<Plan>)
    requires kind0 != Fat12 && (szAu == 0 || PowerOfTwo(szAu))
    ensures var pau := SizeFor(kind0, szAu, szVol);
      && PowerOfTwo(pau) && (szAu == 0 ==> pau <= 64)
      && (r.None? <==> kind0 == Fat32 && !(MAX_FAT16 < szVol / pau <= MAX_FAT32))
      && (r.Some? ==>
            Estimated(r.value, szVol, nRoot) && r.value.pau == pau && r.value.kind == SubType(kind0, szVol / pau))
  {
    hide FatSectors;
    var kind, pau := kind0, szAu;
    if kind == Fat32 {
      if pau == 0 {
        pau := AutoAu(szVol / 0x2_0000, CST32);
        ghost var step: nat :| Reached(szVol / 0x2_0000, CST32, step) && pau == SIZES[step];
        AutoSizeIs(Fat32, szVol, step);
      }
      var nClst := szVol / pau;
      var szFat := FatSectors(Fat32, nClst);
      if nClst <= MAX_FAT16 || nClst > MAX_FAT32 {
        return None;
      }
      return Some(Plan(Fat32, pau, 32, szFat, 0, nClst));
    }
    if pau == 0 {
      pau := AutoAu(szVol / 0x1000, CST);
      ghost var step: nat :| Reached(szVol / 0x1000, CST, step) && pau == SIZES[step];
      AutoSizeIs(kind0, szVol, step);
    }
    var nClst := szVol / pau;
    kind := if nClst > MAX_FAT12 then Fat16 else Fat12;
    var szFat := FatSectors(kind, nClst);
    r := Some(Plan(kind, pau, 1, szFat, nRoot * SZDIRE / SS, nClst));
  }

  predicate Estimated(p: Plan, szVol: nat, nRoot: nat) {
    && PowerOfTwo(p.pau) && p.nClst == szVol / p.pau
    && p.szRsv == (if p.kind == Fat32 then 32 else 1) && p.szDir == (if p.kind == Fat32 then 0 else nRoot * SZDIRE / SS)
    && p.szFat == FatSectors(p.kind, p.nClst)
    && (p.kind == Fat12 ==> p.nClst <= MAX_FAT12) && (p.kind == Fat32 ==> p.nClst <= MAX_FAT32)
  }

  // Is the number of clusters inside the limits of the type?
  predicate InLimits(kind: Kind, n: nat) {
    match kind
    case Fat12 => n <= MAX_FAT12
    case Fat16 => MAX_FAT12 < n <= MAX_FAT16
    case Fat32 => MAX_FAT16 < n
  }

  // Another cluster size or the other type, if the cluster size is free or the
  // type may be changed
  function Instead(kind: Kind, pau: nat, n: nat, szAu: nat, fat32: bool): Option<(Kind, nat)> {
    match kind
    case Fat32 => if szAu == 0 && pau >= 2 then Some((Fat32, pau / 2)) else None
    case Fat16 =>
      if n <= MAX_FAT12 then if szAu == 0 && pau <= 64 then Some((Fat16, pau * 2)) else None
      else if szAu == 0 && pau <= 32 then Some((Fat16, pau * 2))
      else if fat32 then Some((Fat32, szAu))
      else if szAu == 0 && pau <= 64 then Some((Fat16, pau * 2))
      else None
    case Fat12 => None
  }

  // One attempt: accept the plan, try another cluster size or FAT sub-type, or
  // give up.
  method Attempt(kind0: Kind, szAu: nat, bVol: nat, szVol: nat, nFat: nat, nRoot: nat, fat32: bool)
    returns (d: Decision)
    requires kind0 != Fat12 && (szAu == 0 || PowerOfTwo(szAu))
    requires 128 <= szVol < DWORD && 1 <= nFat <= 2 && 0 < nRoot <= 32768 && nRoot % (SS / SZDIRE) == 0
    ensures d.Accept? ==> Sound(d.plan, szVol, nFat, nRoot)
    ensures var pau := SizeFor(kind0, szAu, szVol);
      var kind := SubType(kind0, szVol / pau);
      && Attempted(kind0, szAu, szVol, nFat, nRoot, kind, pau)
      && (d.Accept? <==> Works(kind, pau, szVol, nFat, nRoot))
      && (d.Accept? ==>
            d.plan.pau == pau && d.plan.kind == kind && d.plan.nClst == Clusters(kind, pau, szVol, nFat, nRoot))
      && (d.Retry? ==> Retries(kind, pau, szAu, szVol, nFat, nRoot, fat32, d.kind, d.szAu))
      && (d.Abort? ==> GivesUp(kind, pau, szAu, szVol, nFat, nRoot, fat32))
  {
    hide FatSectors, Sound, AutoSize, Estimated, InFront;
    var r := Estimate(kind0, szAu, szVol, nRoot);
    if r.None? {
      Fewer(kind0, SizeFor(kind0, szAu, szVol), szVol, nFat, nRoot);
      return Abort;
    }
    var p := r.value;
    UsedIsFront(p, szVol, nFat, nRoot);
    hide Used;
    var bData := bVol + Used(p, nFat);
    if szVol < bData + p.pau * 16 - bVol {
      return Abort;
    }
    var nClst := (szVol - Used(p, nFat)) / p.pau;
    Fewer(p.kind, p.pau, szVol, nFat, nRoot);
    LimitsWork(p.kind, p.pau, szVol, nFat, nRoot);
    hide Works, InLimits, Instead;
    d := Decide(p.(nClst := nClst), szAu, fat32);
    if d.Accept? {
      AcceptSound(p, szVol, nFat, nRoot, d.plan);
    }
  }

  lemma UsedIsFront(p: Plan, szVol: nat, nFat: nat, nRoot: nat)
    requires Estimated(p, szVol, nRoot)
    ensures p.pau > 0 && Used(p, nFat) == InFront(p.kind, p.pau, szVol, nFat, nRoot)
  {
    hide FatSectors;
  }

  // With room, and an estimate inside the limits, the type works if and only if
  // the final number of clusters is inside them, too.
  lemma LimitsWork(kind: Kind, pau: nat, szVol: nat, nFat: nat, nRoot: nat)
    requires pau > 0 && Room(kind, pau, szVol, nFat, nRoot)
    requires match kind
             case Fat12 => szVol / pau <= MAX_FAT12
             case Fat16 => true
             case Fat32 => szVol / pau <= MAX_FAT32
    ensures Works(kind, pau, szVol, nFat, nRoot) <==> InLimits(kind, Clusters(kind, pau, szVol, nFat, nRoot))
  {
    Fewer(kind, pau, szVol, nFat, nRoot);
    hide Clusters;
  }

  lemma AcceptSound(e: Plan, szVol: nat, nFat: nat, nRoot: nat, p: Plan)
    requires Estimated(e, szVol, nRoot) && p == e.(nClst := p.nClst) && 1 <= nFat <= 2 && 0 < nRoot <= 32768
    requires nRoot % (SS / SZDIRE) == 0 && szVol < DWORD && e.pau > 0
    requires Used(e, nFat) + e.pau * 16 <= szVol && p.nClst == (szVol - Used(e, nFat)) / e.pau
    requires InLimits(p.kind, p.nClst)
    ensures Sound(p, szVol, nFat, nRoot)
  {
    hide Estimated, Used, Sound;
    Consistent(e, szVol, nFat, nRoot, p);
  }

  lemma Fewer(kind: Kind, pau: nat, szVol: nat, nFat: nat, nRoot: nat)
    requires pau > 0
    ensures Clusters(kind, pau, szVol, nFat, nRoot) <= szVol / pau
  {
    hide InFront;
    var front := InFront(kind, pau, szVol, nFat, nRoot);
    if front <= szVol {
      QuotientOrder(szVol - front, szVol, pau);
    }
  }

  lemma QuotientOrder(a: nat, c: nat, b: nat)
    requires b > 0 && a <= c
    ensures a / b <= c / b
  {
    QuotientFits(a, b);
    QuotientAtLeast(c, b, a / b);
  }

  // Check the FAT sub-type against the final number of clusters.
  method Decide(p: Plan, szAu: nat, fat32: bool) returns (d: Decision)
    requires PowerOfTwo(p.pau) && (szAu != 0 ==> p.pau == szAu) && (szAu == 0 ==> p.pau <= 64)
    ensures if InLimits(p.kind, p.nClst) then d == Accept(p)
            else match Instead(p.kind, p.pau, p.nClst, szAu, fat32)
                 case None => d == Abort
                 case Some(next) => d == Retry(next.0, next.1)
  {
    var pau, nClst := p.pau, p.nClst;
    if p.kind == Fat32 && nClst <= MAX_FAT16 {
      return if szAu == 0 && pau / 2 != 0 then Retry(Fat32, pau / 2) else Abort;
    }
    if p.kind == Fat16 {
      if nClst > MAX_FAT16 {
        if szAu == 0 && pau * 2 <= 64 {
          return Retry(Fat16, pau * 2);
        }
        if fat32 {
          return Retry(Fat32, szAu);
        }
        return if szAu == 0 && pau * 2 <= 128 then Retry(Fat16, pau * 2) else Abort;
      }
      if nClst <= MAX_FAT12 {
        return if szAu == 0 && pau * 2 <= 128 then Retry(Fat16, pau * 2) else Abort;
      }
    }
    if p.kind == Fat12 && nClst > MAX_FAT12 {
      return Abort;
    }
    d := Accept(p);
  }

  // The volumes that can be formatted.  With a given cluster size one of the
  // types must work.  Otherwise only volumes that a FAT12 volume with single
  // sectors would not fit into are too small, and, without FAT32, those with
  // too many clusters of 128 sectors are too large.
  predicate Plannable(kind0: Kind, szAu: nat, szVol: nat, nFat: nat, nRoot: nat, fat32: bool) {
    if szAu != 0 then
      if kind0 == Fat32 then Works(Fat32, szAu, szVol, nFat, nRoot)
      else
        || Works(Fat12, szAu, szVol, nFat, nRoot) || Works(Fat16, szAu, szVol, nFat, nRoot)
        || (fat32 && Works(Fat32, szAu, szVol, nFat, nRoot))
    else if kind0 == Fat32 then szVol >= 0x2_0000 || Works(Fat32, 1, szVol, nFat, nRoot)
    else
      && (szVol > MAX_FAT12 || Works(Fat12, 1, szVol, nFat, nRoot))
      && (fat32 || Clusters(Fat16, 128, szVol, nFat, nRoot) <= MAX_FAT16)
  }

  // The type and the cluster size of the plan: the selected size, unless it
  // gives FAT32 too few or FAT16 too few or too many clusters.
  function Chosen(kind0: Kind, szAu: nat, szVol: nat, nFat: nat, nRoot: nat, fat32: bool): (Kind, nat) {
    if szAu != 0 then ChosenType(kind0, szAu, szVol, nFat, nRoot)
    else if kind0 == Fat32 then (Fat32, Chosen32(szVol, nFat, nRoot))
    else
      var pau := AutoSize(kind0, szVol);
      if Works(Fat12, pau, szVol, nFat, nRoot) then (Fat12, pau)
      else if Works(Fat16, pau, szVol, nFat, nRoot) then (Fat16, pau)
      else if Works(Fat12, pau * 2, szVol, nFat, nRoot) then (Fat12, pau * 2)
      else if pau == 64 && fat32 then (Fat32, Chosen32(szVol, nFat, nRoot))
      else (Fat16, pau * 2)
  }

  function ChosenType(kind0: Kind, pau: nat, szVol: nat, nFat: nat, nRoot: nat): (Kind, nat)
    requires pau > 0
  {
    if kind0 == Fat32 then (Fat32, pau)
    else if Works(Fat12, pau, szVol, nFat, nRoot) then (Fat12, pau)
    else if Works(Fat16, pau, szVol, nFat, nRoot) then (Fat16, pau)
    else (Fat32, pau)
  }

  function Chosen32(szVol: nat, nFat: nat, nRoot: nat): nat {
    var pau := AutoSize(Fat32, szVol);
    if Works(Fat32, pau, szVol, nFat, nRoot) then pau else pau / 2
  }

  // The planning loop of f_mkfs: every retry fixes the cluster size or goes on
  // to FAT32.  It finds a plan if and only if there is one.
  method MakePlan(kind0: Kind, szAu0: nat, bVol: nat, szVol: nat, nFat: nat, nRoot: nat, fat32: bool)
    returns (r: Option<Plan>)
    requires kind0 != Fat12 && (szAu0 == 0 || PowerOfTwo(szAu0))
    requires 128 <= szVol < DWORD && 1 <= nFat <= 2 && 0 < nRoot <= 32768 && nRoot % (SS / SZDIRE) == 0
    ensures r.Some? <==> Plannable(kind0, szAu0, szVol, nFat, nRoot, fat32)
    ensures r.Some? ==> (r.value.kind, r.value.pau) == Chosen(kind0, szAu0, szVol, nFat, nRoot, fat32)
    ensures r.Some? ==> Sound(r.value, szVol, nFat, nRoot)
    ensures r.Some? ==>
              Mount(RecordOf(r.value, szVol, nFat, nRoot), bVol) == Some(GeometryOf(r.value, bVol, nFat, nRoot))
  {
    hide Sound, Mount, Plannable, Chosen, AutoSize, Works, Clusters, Room, InLimits, Instead, GivesUp, Retries;
    var kind, szAu := kind0, szAu0;
    while true
      invariant kind != Fat12 && (szAu == 0 || PowerOfTwo(szAu))
      invariant Plannable(kind, szAu, szVol, nFat, nRoot, fat32) <==>
                Plannable(kind0, szAu0, szVol, nFat, nRoot, fat32)
      invariant Plannable(kind, szAu, szVol, nFat, nRoot, fat32) ==>
                Chosen(kind, szAu, szVol, nFat, nRoot, fat32) == Chosen(kind0, szAu0, szVol, nFat, nRoot, fat32)
      decreases (if szAu == 0 then 1 else 0) + (if kind == Fat16 then 1 else 0)
    {
      var d := Attempt(kind, szAu, bVol, szVol, nFat, nRoot, fat32);
      ghost var pau := SizeFor(kind, szAu, szVol);
      ghost var sub := SubType(kind, szVol / pau);
      match d
      case Abort =>
        AbortRight(kind, szAu, szVol, nFat, nRoot, fat32, sub, pau);
        return None;
      case Accept(p) =>
        AcceptRight(kind, szAu, szVol, nFat, nRoot, fat32, sub, pau);
        MountAgrees(p, bVol, szVol, nFat, nRoot);
        return Some(p);
      case Retry(k, a) =>
        RetryRight(kind, szAu, szVol, nFat, nRoot, fat32, sub, pau, k, a);
        kind, szAu := k, a;
    }
  }

  function GeometryOf(p: Plan, bVol: nat, nFat: nat, nRoot: nat): Geometry {
    Geometry(p.kind, p.nClst + 2, bVol + p.szRsv, p.szFat, nFat, p.pau, bVol + Used(p, nFat),
             if p.kind == Fat32 then 0 else nRoot)
  }

  // Mounting derives what formatting decided.
  lemma MountAgrees(p: Plan, bVol: nat, szVol: nat, nFat: nat, nRoot: nat)
    requires Sound(p, szVol, nFat, nRoot) && 128 <= szVol < DWORD && 1 <= nFat <= 2
    requires 0 < nRoot <= 32768 && nRoot % (SS / SZDIRE) == 0
    ensures Mount(RecordOf(p, szVol, nFat, nRoot), bVol) == Some(GeometryOf(p, bVol, nFat, nRoot))
  {
    RecordFields(p, szVol, nFat, nRoot);
    hide NeededBytes, IsFat, FatSize, Sectors, SystemSectors, PowerOfTwo, Used;
  }

  // No field is cut short.
  lemma RecordFields(p: Plan, szVol: nat, nFat: nat, nRoot: nat)
    requires Sound(p, szVol, nFat, nRoot) && 128 <= szVol < DWORD && 1 <= nFat <= 2
    requires 0 < nRoot <= 32768 && nRoot % (SS / SZDIRE) == 0
    ensures var r := RecordOf(p, szVol, nFat, nRoot);
      && IsFat(r) && FatSize(r) == p.szFat && Sectors(r) == szVol && SystemSectors(r) == Used(p, nFat)
      && r.secPerClus == p.pau && r.rsvdSecCnt == p.szRsv && r.numFats == nFat && r.bytsPerSec == SS
      && r.rootEntCnt == (if p.kind == Fat32 then 0 else nRoot) && r.fsVer32 == 0
  {
    hide NeededBytes, KindOf;
  }

  // The plan is consistent with itself, and its fields fit into the record.
  predicate Sound(p: Plan, szVol: nat, nFat: nat, nRoot: nat) {
    && PowerOfTwo(p.pau) && KindOf(p.nClst) == Some(p.kind)
    && p.szRsv == (if p.kind == Fat32 then 32 else 1)
    && p.szDir == (if p.kind == Fat32 then 0 else nRoot / (SS / SZDIRE))
    && Used(p, nFat) <= szVol && p.nClst == (szVol - Used(p, nFat)) / p.pau
    && (NeededBytes(p.kind, p.nClst + 2) + (SS - 1)) / SS <= p.szFat
    && p.szFat > 0 && (p.kind != Fat32 ==> p.szFat < 0x1_0000)
  }

  lemma Consistent(e: Plan, szVol: nat, nFat: nat, nRoot: nat, p: Plan)
    requires Estimated(e, szVol, nRoot) && p == e.(nClst := p.nClst) && 1 <= nFat <= 2 && 0 < nRoot <= 32768
    requires nRoot % (SS / SZDIRE) == 0 && szVol < DWORD
    requires Used(e, nFat) + e.pau * 16 <= szVol && p.nClst == (szVol - Used(e, nFat)) / e.pau
    requires match p.kind
             case Fat12 => p.nClst <= MAX_FAT12
             case Fat16 => MAX_FAT12 < p.nClst <= MAX_FAT16
             case Fat32 => MAX_FAT16 < p.nClst
    ensures Sound(p, szVol, nFat, nRoot)
  {
    hide NeededBytes, FatBytes, FatSectors;
    NearEstimate(szVol, Used(e, nFat), e.pau, e.nClst, p.nClst);
    SectorsBelow(e.kind, e.nClst);
    NoWrap(e.kind, e.nClst);
    NeededGrows(p.kind, p.nClst, e.nClst);
    if p.kind != Fat32 {
      SmallFat(e.nClst, p.nClst, p.szFat, nFat, Used(e, nFat), p.kind, nRoot);
    }
  }

  lemma SectorsBelow(kind: Kind, n: nat)
    ensures FatSectors(kind, n) < 0x80_0000
  {
  }

  lemma SmallBytes(bytes: nat)
    requires bytes < DWORD - SS
    ensures (bytes % DWORD + SS - 1) % DWORD / SS == (bytes + SS - 1) / SS
  {
    assert bytes % DWORD == bytes;
  }

  // A plan that is accepted comes from an estimate that did not wrap around.
  lemma NoWrap(kind: Kind, n: nat)
    requires match kind
             case Fat12 => n <= MAX_FAT12
             case Fat16 => n <= MAX_FAT32
             case Fat32 => n <= MAX_FAT32
    ensures FatSectors(kind, n) == (FatBytes(kind, n) + SS - 1) / SS
  {
    assert FatBytes(kind, n) < DWORD - SS;
    hide FatBytes;
    SmallBytes(FatBytes(kind, n));
  }

  lemma QuotientLess(a: nat, b: nat, q: nat)
    requires b > 0 && a < b * q
    ensures a / b < q
  {
    var d := a / b;
    assert a == b * d + a % b;
    if d >= q {
      MulOrder(q, d, b);
    }
  }

  lemma QuotientAtLeast(a: nat, b: nat, q: nat)
    requires b > 0 && b * q <= a
    ensures q <= a / b
  {
    var d := a / b;
    assert a == b * d + a % b;
    if d < q {
      MulOrder(d + 1, q, b);
    }
  }

  lemma QuotientBelow(a: nat, b: nat, q: nat)
    requires b > 0 && a / b < q
    ensures a < b * q
  {
    assert a == b * (a / b) + a % b;
    MulOrder(a / b + 1, q, b);
  }

  // The final number of clusters is at least 16 and at most the estimate, and
  // falls short of it by no more than the sectors in use.
  lemma NearEstimate(szVol: nat, used: nat, pau: nat, estimate: nat, n: nat)
    requires pau > 0 && estimate == szVol / pau && used + pau * 16 <= szVol && n == (szVol - used) / pau
    ensures 16 <= n <= estimate <= n + used
  {
    var room: nat := szVol - used;
    QuotientAtLeast(room, pau, 16);
    assert room == pau * n + room % pau;
    QuotientAtLeast(szVol, pau, n);
    MulSelf(pau, used);
    assert pau * (n + used + 1) == pau * n + pau * used + pau;
    QuotientLess(szVol, pau, n + used + 1);
  }

  lemma NeededGrows(kind: Kind, n: nat, estimate: nat)
    requires n <= estimate
    ensures (NeededBytes(kind, n + 2) + (SS - 1)) / SS <= (FatBytes(kind, estimate) + SS - 1) / SS
    ensures (FatBytes(kind, estimate) + SS - 1) / SS > 0
  {
    NeededAtMost(kind, n, estimate);
    hide NeededBytes, FatBytes;
    SectorsGrow(NeededBytes(kind, n + 2), FatBytes(kind, estimate));
  }

  lemma NeededAtMost(kind: Kind, n: nat, estimate: nat)
    requires n <= estimate
    ensures NeededBytes(kind, n + 2) <= FatBytes(kind, estimate) && FatBytes(kind, estimate) > 0
  {
    match kind
    case Fat12 => assert (n + 2) * 3 / 2 + (n + 2) % 2 <= (n * 3 + 1) / 2 + 3;
    case Fat16 =>
    case Fat32 =>
  }

  lemma SectorsGrow(a: nat, b: nat)
    requires a <= b && b > 0
    ensures (a + (SS - 1)) / SS <= (b + SS - 1) / SS && (b + SS - 1) / SS > 0
  {
  }

  // The FAT of a FAT12 or FAT16 volume has a 16-bit size.
  lemma SmallFat(estimate: nat, n: nat, szFat: nat, nFat: nat, used: nat, kind: Kind, nRoot: nat)
    requires kind != Fat32 && szFat == (FatBytes(kind, estimate) + SS - 1) / SS && 1 <= nFat <= 2 && nRoot <= 32768
    requires used == 1 + szFat * nFat + nRoot * SZDIRE / SS && estimate <= n + used && n <= MAX_FAT16
    ensures szFat < 0x1_0000
  {
    MulOrder(nFat, 2, szFat);
  }

  // ---- When there is a plan ---------------------------------------------------------------

  ghost predicate Sizes(szVol: nat, nFat: nat, nRoot: nat) {
    128 <= szVol < DWORD && 1 <= nFat <= 2 && 0 < nRoot <= 32768 && nRoot % (SS / SZDIRE) == 0
  }

  lemma FrontBound(kind: Kind, pau: nat, szVol: nat, nFat: nat, nRoot: nat)
    requires pau > 0 && szVol / pau <= MAX_FAT32 && 1 <= nFat <= 2 && nRoot <= 32768
    ensures InFront(kind, pau, szVol, nFat, nRoot) <= 2084 + szVol / 64
  {
    var e := szVol / pau;
    hide FatSectors;
    FatBound(kind, e);
    MulOrder(nFat, 2, FatSectors(kind, e));
    MulSelf(pau, e);
    QuotientFits(szVol, pau);
  }

  lemma FatBound(kind: Kind, n: nat)
    requires n <= MAX_FAT32
    ensures FatSectors(kind, n) <= n / 128 + 2
  {
    assert FatBytes(kind, n) <= n * 4 + 8;
    hide FatBytes;
    SmallBytes(FatBytes(kind, n));
  }

  // Where FAT32 works there is room for FAT16, too, with enough clusters.
  lemma Fat16Too(a: nat, szVol: nat, nFat: nat, nRoot: nat)
    requires Sizes(szVol, nFat, nRoot) && PowerOfTwo(a) && Works(Fat32, a, szVol, nFat, nRoot)
    ensures Room(Fat16, a, szVol, nFat, nRoot) && Clusters(Fat16, a, szVol, nFat, nRoot) > MAX_FAT12
  {
    hide InFront;
    var e := szVol / a;
    Fewer(Fat32, a, szVol, nFat, nRoot);
    QuotientFits(szVol, a);
    MulOrder(65526, e, a);
    FrontBound(Fat16, a, szVol, nFat, nRoot);
    var front := InFront(Fat16, a, szVol, nFat, nRoot);
    QuotientAtLeast(szVol - front, a, 4086);
  }

  ghost predicate Attempted(kind0: Kind, szAu: nat, szVol: nat, nFat: nat, nRoot: nat, kind: Kind, pau: nat) {
    && kind0 != Fat12 && Sizes(szVol, nFat, nRoot) && (szAu == 0 || PowerOfTwo(szAu))
    && pau == SizeFor(kind0, szAu, szVol) && PowerOfTwo(pau) && kind == SubType(kind0, szVol / pau)
  }

  lemma FixedWorks(kind0: Kind, szAu: nat, szVol: nat, nFat: nat, nRoot: nat, fat32: bool, kind: Kind)
    requires szAu != 0 && Attempted(kind0, szAu, szVol, nFat, nRoot, kind, szAu)
    ensures Works(Fat12, szAu, szVol, nFat, nRoot) ==> kind == Fat12 || kind0 == Fat32
    ensures Works(Fat16, szAu, szVol, nFat, nRoot) ==> kind == Fat16 || kind0 == Fat32
    ensures Works(Fat32, szAu, szVol, nFat, nRoot) ==>
              || kind0 == Fat32
              || (kind == Fat16 && Room(Fat16, szAu, szVol, nFat, nRoot)
                  && Clusters(Fat16, szAu, szVol, nFat, nRoot) > MAX_FAT12)
  {
    Fewer(Fat16, szAu, szVol, nFat, nRoot);
    Fewer(Fat32, szAu, szVol, nFat, nRoot);
    hide InFront, Clusters;
    if Works(Fat32, szAu, szVol, nFat, nRoot) {
      Fat16Too(szAu, szVol, nFat, nRoot);
    }
  }

  // The attempt gives up.
  ghost predicate GivesUp(kind: Kind, pau: nat, szAu: nat, szVol: nat, nFat: nat, nRoot: nat, fat32: bool)
    requires pau > 0
  {
    && !Works(kind, pau, szVol, nFat, nRoot)
    && (Room(kind, pau, szVol, nFat, nRoot) && (kind == Fat32 ==> MAX_FAT16 < szVol / pau <= MAX_FAT32) ==>
          Instead(kind, pau, Clusters(kind, pau, szVol, nFat, nRoot), szAu, fat32) == None)
  }

  // The attempt leads to another one.
  ghost predicate Retries(kind: Kind, pau: nat, szAu: nat, szVol: nat, nFat: nat, nRoot: nat, fat32: bool,
                          k: Kind, a: nat)
    requires pau > 0
  {
    var n := Clusters(kind, pau, szVol, nFat, nRoot);
    && Room(kind, pau, szVol, nFat, nRoot) && !InLimits(kind, n)
    && Instead(kind, pau, n, szAu, fat32) == Some((k, a))
  }

  lemma FixedGivesUp(kind0: Kind, szAu: nat, szVol: nat, nFat: nat, nRoot: nat, fat32: bool, kind: Kind)
    requires szAu != 0 && Attempted(kind0, szAu, szVol, nFat, nRoot, kind, szAu)
    requires GivesUp(kind, szAu, szAu, szVol, nFat, nRoot, fat32)
    ensures !Plannable(kind0, szAu, szVol, nFat, nRoot, fat32)
  {
    FixedWorks(kind0, szAu, szVol, nFat, nRoot, fat32, kind);
    hide InFront, Clusters, Room;
  }

  lemma FixedRetries(kind0: Kind, szAu: nat, szVol: nat, nFat: nat, nRoot: nat, fat32: bool, kind: Kind,
                     k: Kind, a: nat)
    requires szAu != 0 && Attempted(kind0, szAu, szVol, nFat, nRoot, kind, szAu)
    requires Retries(kind, szAu, szAu, szVol, nFat, nRoot, fat32, k, a)
    ensures kind0 == Fat16 && k == Fat32 && a == szAu
    ensures Plannable(k, a, szVol, nFat, nRoot, fat32) <==> Plannable(kind0, szAu, szVol, nFat, nRoot, fat32)
    ensures Plannable(k, a, szVol, nFat, nRoot, fat32) ==>
              Chosen(k, a, szVol, nFat, nRoot, fat32) == Chosen(kind0, szAu, szVol, nFat, nRoot, fat32)
  {
    FixedWorks(kind0, szAu, szVol, nFat, nRoot, fat32, kind);
    hide InFront, Clusters, Room;
  }

  // ---- With the cluster size selected -------------------------------------------------

  // Between 2^16 and 2^17 clusters, or 64 sectors to a cluster
  predicate Many(pau: nat, szVol: nat) {
    0x1_0000 * pau <= szVol && (szVol < 0x2_0000 * pau || (pau == 64 && szVol < DWORD))
  }

  lemma ManyEnough(pau: nat, szVol: nat, nFat: nat, nRoot: nat)
    requires 2 <= pau <= 64 && pau % 2 == 0 && Many(pau, szVol) && Sizes(szVol, nFat, nRoot)
    ensures Room(Fat32, pau, szVol, nFat, nRoot) && MAX_FAT16 < szVol / pau <= MAX_FAT32
    ensures Works(Fat32, pau / 2, szVol, nFat, nRoot)
  {
    hide InFront;
    var half := pau / 2;
    QuotientAtLeast(szVol, pau, 0x1_0000);
    if pau < 64 {
      QuotientLess(szVol, pau, 0x2_0000);
      QuotientLess(szVol, half, 0x4_0000);
    }
    FrontBound(Fat32, pau, szVol, nFat, nRoot);
    FrontBound(Fat32, half, szVol, nFat, nRoot);
    var front := InFront(Fat32, half, szVol, nFat, nRoot);
    QuotientAtLeast(szVol - front, half, 65526);
  }

  // FAT32 with the selected size: from 2^17 sectors on one of two sizes works.
  lemma Auto32(szVol: nat, nFat: nat, nRoot: nat)
    requires Sizes(szVol, nFat, nRoot)
    ensures var pau := AutoSize(Fat32, szVol);
      if pau == 1 then szVol < 0x2_0000
      else
        && szVol >= 0x2_0000 && Room(Fat32, pau, szVol, nFat, nRoot) && MAX_FAT16 < szVol / pau <= MAX_FAT32
        && PowerOfTwo(pau / 2) && Works(Fat32, pau / 2, szVol, nFat, nRoot)
  {
    hide InFront, Works, Room;
    var pau := AutoSize(Fat32, szVol);
    if pau > 1 {
      ManyEnough(pau, szVol, nFat, nRoot);
    }
  }

  // FAT12 and FAT16 with the selected size: only a small volume has no room.
  lemma Auto16Room(szVol: nat, nFat: nat, nRoot: nat)
    requires Sizes(szVol, nFat, nRoot)
    ensures var pau := AutoSize(Fat16, szVol);
      && (szVol <= MAX_FAT12 ==> pau == 1 && SubType(Fat16, szVol / pau) == Fat12)
      && (szVol > MAX_FAT12 ==> Room(SubType(Fat16, szVol / pau), pau, szVol, nFat, nRoot))
  {
    hide InFront;
    var pau := AutoSize(Fat16, szVol);
    FrontBound(SubType(Fat16, szVol / pau), pau, szVol, nFat, nRoot);
  }

  // Too few clusters for FAT16: with clusters twice as large it is FAT12.
  lemma Auto16Few(szVol: nat, nFat: nat, nRoot: nat)
    requires Sizes(szVol, nFat, nRoot)
    requires var pau := AutoSize(Fat16, szVol);
      SubType(Fat16, szVol / pau) == Fat16 && Clusters(Fat16, pau, szVol, nFat, nRoot) <= MAX_FAT12
    ensures var pau := AutoSize(Fat16, szVol); pau <= 4 && Works(Fat12, pau * 2, szVol, nFat, nRoot)
  {
    hide InFront;
    var pau := AutoSize(Fat16, szVol);
    FrontBound(Fat16, pau, szVol, nFat, nRoot);
    FrontBound(Fat12, pau * 2, szVol, nFat, nRoot);
    var front := InFront(Fat16, pau, szVol, nFat, nRoot);
    if front <= szVol {
      QuotientBelow(szVol - front, pau, 4086);
    }
  }

  // Too many: with clusters twice as large, of up to 64 sectors, it is FAT16.
  lemma Auto16Many(szVol: nat, nFat: nat, nRoot: nat)
    requires Sizes(szVol, nFat, nRoot)
    requires var pau := AutoSize(Fat16, szVol);
      SubType(Fat16, szVol / pau) == Fat16 && Clusters(Fat16, pau, szVol, nFat, nRoot) > MAX_FAT16
    ensures var pau := AutoSize(Fat16, szVol);
      pau >= 16 && (pau <= 32 ==> Works(Fat16, pau * 2, szVol, nFat, nRoot)) && szVol >= 0x8_0000
  {
    hide InFront;
    var pau := AutoSize(Fat16, szVol);
    Fewer(Fat16, pau, szVol, nFat, nRoot);
    if pau <= 32 {
      FrontBound(Fat16, pau * 2, szVol, nFat, nRoot);
      Fewer(Fat16, pau * 2, szVol, nFat, nRoot);
      var front := InFront(Fat16, pau * 2, szVol, nFat, nRoot);
      QuotientAtLeast(szVol - front, pau * 2, 4086);
    }
  }

  // Clusters of 128 sectors are few enough whenever smaller ones are.
  lemma Few128(szVol: nat, nFat: nat, nRoot: nat)
    requires Sizes(szVol, nFat, nRoot)
    requires szVol < 0x20_0000 || Clusters(Fat16, 64, szVol, nFat, nRoot) <= MAX_FAT16
    ensures Clusters(Fat16, 128, szVol, nFat, nRoot) <= MAX_FAT16
  {
    hide InFront;
    Fewer(Fat16, 128, szVol, nFat, nRoot);
    if szVol >= 0x20_0000 {
      FrontBound(Fat16, 64, szVol, nFat, nRoot);
      var front := InFront(Fat16, 64, szVol, nFat, nRoot);
        QuotientBelow(szVol - front, 64, 65526);
    }
  }

  // Where clusters of 64 sectors are too many, those of 128 are not too few.
  lemma Enough128(szVol: nat, nFat: nat, nRoot: nat)
    requires Sizes(szVol, nFat, nRoot) && Clusters(Fat16, 64, szVol, nFat, nRoot) > MAX_FAT16
    ensures szVol >= 0x40_0000 - 0x1000 && !Works(Fat12, 128, szVol, nFat, nRoot)
    ensures Works(Fat16, 128, szVol, nFat, nRoot) <==> Clusters(Fat16, 128, szVol, nFat, nRoot) <= MAX_FAT16
  {
    hide InFront;
    Fewer(Fat16, 64, szVol, nFat, nRoot);
    FrontBound(Fat16, 128, szVol, nFat, nRoot);
    var front := InFront(Fat16, 128, szVol, nFat, nRoot);
    QuotientAtLeast(szVol - front, 128, 4086);
  }

  // ---- The three ways an attempt ends ----------------------------------------------------

  lemma AbortRight(kind0: Kind, szAu: nat, szVol: nat, nFat: nat, nRoot: nat, fat32: bool, kind: Kind, pau: nat)
    requires Attempted(kind0, szAu, szVol, nFat, nRoot, kind, pau)
    requires GivesUp(kind, pau, szAu, szVol, nFat, nRoot, fat32)
    ensures !Plannable(kind0, szAu, szVol, nFat, nRoot, fat32)
  {
    if szAu != 0 {
      FixedGivesUp(kind0, szAu, szVol, nFat, nRoot, fat32, kind);
    } else if kind0 == Fat32 {
      Auto32(szVol, nFat, nRoot);
      hide InFront, Clusters, Room;
    } else {
      Auto16Room(szVol, nFat, nRoot);
      if szVol > MAX_FAT12 {
        Auto16GivesUp(szVol, nFat, nRoot, fat32);
      }
    }
  }

  // It does not give up on a larger volume.
  lemma Auto16GivesUp(szVol: nat, nFat: nat, nRoot: nat, fat32: bool)
    requires Sizes(szVol, nFat, nRoot) && szVol > MAX_FAT12
    ensures var pau := AutoSize(Fat16, szVol); !GivesUp(SubType(Fat16, szVol / pau), pau, 0, szVol, nFat, nRoot, fat32)
  {
    var pau := AutoSize(Fat16, szVol);
    Auto16Room(szVol, nFat, nRoot);
    hide InFront, Clusters, Room;
    if SubType(Fat16, szVol / pau) == Fat16 && Clusters(Fat16, pau, szVol, nFat, nRoot) <= MAX_FAT12 {
      Auto16Few(szVol, nFat, nRoot);
    }
  }

  lemma AcceptRight(kind0: Kind, szAu: nat, szVol: nat, nFat: nat, nRoot: nat, fat32: bool, kind: Kind, pau: nat)
    requires Attempted(kind0, szAu, szVol, nFat, nRoot, kind, pau) && Works(kind, pau, szVol, nFat, nRoot)
    ensures Plannable(kind0, szAu, szVol, nFat, nRoot, fat32)
    ensures Chosen(kind0, szAu, szVol, nFat, nRoot, fat32) == (kind, pau)
  {
    hide InFront, Clusters, Room;
    if szAu == 0 {
      if kind0 == Fat32 {
        Auto32(szVol, nFat, nRoot);
      } else {
        Auto16Room(szVol, nFat, nRoot);
        if pau < 64 || kind == Fat16 {
          Few128(szVol, nFat, nRoot);
        }
      }
    }
  }

  lemma RetryRight(kind0: Kind, szAu: nat, szVol: nat, nFat: nat, nRoot: nat, fat32: bool, kind: Kind, pau: nat,
                   k: Kind, a: nat)
    requires Attempted(kind0, szAu, szVol, nFat, nRoot, kind, pau)
    requires Retries(kind, pau, szAu, szVol, nFat, nRoot, fat32, k, a)
    ensures k != Fat12 && (a == 0 || PowerOfTwo(a))
    ensures (szAu == 0 && a != 0 && k == kind0) || (kind0 == Fat16 && k == Fat32 && a == szAu)
    ensures Plannable(k, a, szVol, nFat, nRoot, fat32) <==> Plannable(kind0, szAu, szVol, nFat, nRoot, fat32)
    ensures Plannable(k, a, szVol, nFat, nRoot, fat32) ==>
              Chosen(k, a, szVol, nFat, nRoot, fat32) == Chosen(kind0, szAu, szVol, nFat, nRoot, fat32)
  {
    if szAu != 0 {
      FixedRetries(kind0, szAu, szVol, nFat, nRoot, fat32, kind, k, a);
    } else if kind0 == Fat32 {
      Auto32(szVol, nFat, nRoot);
      hide InFront, Clusters, Room;
    } else {
      Auto16Retries(szVol, nFat, nRoot, fat32, kind, pau, k, a);
    }
  }

  lemma Auto16Retries(szVol: nat, nFat: nat, nRoot: nat, fat32: bool, kind: Kind, pau: nat, k: Kind, a: nat)
    requires Attempted(Fat16, 0, szVol, nFat, nRoot, kind, pau)
    requires Retries(kind, pau, 0, szVol, nFat, nRoot, fat32, k, a)
    ensures (k == Fat16 && a == pau * 2) || (k == Fat32 && a == 0)
    ensures Plannable(k, a, szVol, nFat, nRoot, fat32) <==> Plannable(Fat16, 0, szVol, nFat, nRoot, fat32)
    ensures Plannable(k, a, szVol, nFat, nRoot, fat32) ==>
              Chosen(k, a, szVol, nFat, nRoot, fat32) == Chosen(Fat16, 0, szVol, nFat, nRoot, fat32)
  {
    hide InFront, Clusters, Room;
    if Clusters(Fat16, pau, szVol, nFat, nRoot) <= MAX_FAT12 {
      Auto16Few(szVol, nFat, nRoot);
      Few128(szVol, nFat, nRoot);
    } else {
      Auto16Many(szVol, nFat, nRoot);
      if pau <= 32 {
        Few128(szVol, nFat, nRoot);
      } else {
        Enough128(szVol, nFat, nRoot);
      }
    }
  }

  // The volumes this repository formats, from 64 KiB to just under 2 TiB, all
  // have a plan.
  lemma DefaultPlannable(szVol: nat, nFat: nat)
    requires 128 <= szVol < DWORD && 1 <= nFat <= 2
    ensures Plannable(Fat16, 0, szVol, nFat, 512, true)
  {
    if szVol <= MAX_FAT12 {
      Sectors12(szVol);
      assert szVol / 1 == szVol;
      hide FatSectors;
      if nFat == 2 {
        assert FatSectors(Fat12, szVol) * nFat == 2 * FatSectors(Fat12, szVol);
      }
    }
  }

  lemma Sectors12(n: nat)
    requires n <= MAX_FAT12
    ensures FatSectors(Fat12, n) <= n / 256 + 2
  {
  }
}
