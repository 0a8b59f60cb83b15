/** Two-level page tables over a list of free pages (kern/vm.c, kern/kalloc.c).

    Addresses are page numbers: va / PGSIZE and pa / PGSIZE.  A directory and a table are pages
    of NENTRIES entries; user pages hold bytes.  `owner` says what every page in use is used
    for, over all address spaces at once. */
module Vm {
  import opened Options

  const PGSIZE: nat := 4096
  const NENTRIES: nat := 1024          // NPDENTRIES and NPTENTRIES
  const NPAGES: nat := 1048576         // virtual pages
  const KERNBASE: nat := 524288        // 0x80000000 / PGSIZE

  type Byte = x: int | 0 <= x < 256
  type Page = p: seq<Byte> | |p| == PGSIZE witness seq(PGSIZE, _ => 0)

  /** A page table entry: not present, or a physical page with its flags. */
  datatype Pte = NoPte | Pte(ppn: nat, flags: nat)

  type Table = t: seq<Pte> | |t| == NENTRIES witness seq(NENTRIES, _ => NoPte)
  type Dir = d: seq<Option<nat>> | |d| == NENTRIES witness seq(NENTRIES, _ => None)

  /** Physical memory in use, by what is in it. */
  datatype Mem = Mem(dirs: map<nat, Dir>, tabs: map<nat, Table>, bytes: map<nat, Page>)

  /** What a page is used for; a loose page has been allocated and is mapped nowhere. */
  datatype Use = IsDir | IsTable(d: nat, i: nat) | IsUser(d: nat, v: nat) | Loose

  type Owners = map<nat, Use>

  function Pdx(v: nat): nat { v / NENTRIES }
  function Ptx(v: nat): nat { v % NENTRIES }

  /** Is there a table for virtual page v: does walkpgdir succeed without allocating? */
  predicate HasTable(m: Mem, d: nat, v: nat)
  {
    d in m.dirs && v < NPAGES && m.dirs[d][Pdx(v)].Some? && m.dirs[d][Pdx(v)].value in m.tabs
  }

  /** The entry for virtual page v in address space d. */
  function Lookup(m: Mem, d: nat, v: nat): (e: Pte)
  {
    if HasTable(m, d, v) then m.tabs[m.dirs[d][Pdx(v)].value][Ptx(v)] else NoPte
  }

  /** Where the entry for page v is: entry v / 1024 of the directory names the table, and it is entry
      v % 1024 of that. */
  lemma EntryPlace(m: Mem, d: nat, v: nat)
    requires d in m.dirs && v < 1024 * 1024
    ensures var slot := m.dirs[d][v / 1024];
            && (slot.Some? && slot.value in m.tabs ==> Lookup(m, d, v) == m.tabs[slot.value][v % 1024])
            && (slot.None? ==> Lookup(m, d, v).NoPte?)
  {
  }

  // ----- who owns which page -----

  ghost predicate DirOk(m: Mem, owner: Owners, d: nat)
  {
    d in m.dirs ==> d in owner && owner[d].IsDir?
  }

  ghost predicate TableOk(m: Mem, owner: Owners, d: nat, i: nat)
  {
    d in m.dirs && i < NENTRIES && m.dirs[d][i].Some? ==>
      var t := m.dirs[d][i].value;
      t in m.tabs && t in owner && owner[t] == IsTable(d, i)
  }

  ghost predicate UserOk(m: Mem, owner: Owners, d: nat, v: nat)
  {
    v < KERNBASE && Lookup(m, d, v).Pte? ==>
      var p := Lookup(m, d, v).ppn;
      p in m.bytes && p in owner && owner[p] == IsUser(d, v)
  }

  ghost predicate UseOk(m: Mem, owner: Owners, p: nat)
  {
    p in owner ==>
      match owner[p]
      case IsDir => p in m.dirs
      case IsTable(d, i) => d in m.dirs && i < NENTRIES && m.dirs[d][i] == Some(p)
      case IsUser(d, v) => v < KERNBASE && Lookup(m, d, v).Pte? && Lookup(m, d, v).ppn == p
      case Loose => true
  }

  /** Every page in use has one use; every table and user page of every address space is
      its own page. */
  ghost predicate Owned(m: Mem, owner: Owners)
  {
    && (forall d: nat :: DirOk(m, owner, d))
    && (forall d: nat, i: nat :: TableOk(m, owner, d, i))
    && (forall d: nat, v: nat :: UserOk(m, owner, d, v))
    && (forall p: nat :: UseOk(m, owner, p))
  }

  /** The free list: pages of memory that are in no use, each once; all others are in use. */
  ghost predicate FreeOk(free: seq<nat>, owner: Owners, all: set<nat>)
  {
    && (forall i, j :: 0 <= i < j < |free| ==> free[i] != free[j])
    && (forall p :: p in free ==> p in all && p !in owner)
    && (forall p :: p in owner ==> p in all)
    && (forall p :: p in all && p !in owner ==> p in free)
  }

  /** Two mapped user pages, in whatever address spaces, share no memory. */
  lemma UserPagesApart(m: Mem, owner: Owners, d: nat, v: nat, d': nat, v': nat)
    requires Owned(m, owner) && v < KERNBASE && v' < KERNBASE
    requires Lookup(m, d, v).Pte? && Lookup(m, d', v').Pte? && Lookup(m, d, v).ppn == Lookup(m, d', v').ppn
    ensures d == d' && v == v'
  {
    assert UserOk(m, owner, d, v) && UserOk(m, owner, d', v');
  }

  // ----- single changes -----

  function ZeroTable(): Table
  {
    seq(NENTRIES, _ => NoPte)
  }

  function ZeroDir(): Dir
  {
    seq(NENTRIES, _ => None)
  }

  /** A page that nothing refers to. */
  predicate Unused(owner: Owners, p: nat)
  {
    p in owner ==> owner[p].Loose?
  }

  function WithTable(m: Mem, d: nat, i: nat, t: nat): Mem
    requires d in m.dirs && i < NENTRIES
  {
    m.(dirs := m.dirs[d := m.dirs[d][i := Some(t)]], tabs := m.tabs[t := ZeroTable()])
  }

  /** walkpgdir's allocation: a fresh zeroed table changes no entry. */
  lemma TableAdded(m: Mem, owner: Owners, d: nat, i: nat, t: nat)
    requires Owned(m, owner) && d in m.dirs && i < NENTRIES && m.dirs[d][i].None? && Unused(owner, t)
    ensures var m' := WithTable(m, d, i, t);
            && Owned(m', owner[t := IsTable(d, i)])
            && forall d': nat, v: nat :: Lookup(m', d', v) == Lookup(m, d', v)
  {
    var m', o := WithTable(m, d, i, t), owner[t := IsTable(d, i)];
    forall d': nat, v: nat ensures Lookup(m', d', v) == Lookup(m, d', v) {
      if v < NPAGES && d' in m.dirs {
        assert TableOk(m, owner, d', Pdx(v));
      }
    }
    forall d': nat ensures DirOk(m', o, d') { assert DirOk(m, owner, d'); }
    forall d': nat, i': nat ensures TableOk(m', o, d', i') { assert TableOk(m, owner, d', i'); }
    forall d': nat, v: nat ensures UserOk(m', o, d', v) { assert UserOk(m, owner, d', v); }
    forall p: nat ensures UseOk(m', o, p) { assert UseOk(m, owner, p) && DirOk(m, owner, d); }
  }

  function WithPte(m: Mem, d: nat, v: nat, e: Pte): Mem
    requires HasTable(m, d, v)
  {
    var t := m.dirs[d][Pdx(v)].value;
    m.(tabs := m.tabs[t := m.tabs[t][Ptx(v) := e]])
  }

  /** Writing one entry changes that entry and no other, in any address space. */
  lemma PteWritten(m: Mem, owner: Owners, d: nat, v: nat, e: Pte, d': nat, v': nat)
    requires Owned(m, owner) && HasTable(m, d, v)
    ensures Lookup(WithPte(m, d, v, e), d', v') == if d' == d && v' == v then e else Lookup(m, d', v')
  {
    assert TableOk(m, owner, d, Pdx(v));
    if d' in m.dirs && v' < NPAGES {
      assert TableOk(m, owner, d', Pdx(v'));
      assert Pdx(v) == Pdx(v') && Ptx(v) == Ptx(v') ==> v == v';
    }
  }

  /** Mapping a fresh page of bytes at an empty user entry. */
  lemma PageMapped(m: Mem, owner: Owners, d: nat, v: nat, p: nat, flags: nat, data: Page)
    requires Owned(m, owner) && HasTable(m, d, v) && v < KERNBASE && Lookup(m, d, v).NoPte?
    requires Unused(owner, p)
    ensures var m' := WithPte(m, d, v, Pte(p, flags)).(bytes := m.bytes[p := data]);
            && Owned(m', owner[p := IsUser(d, v)])
            && forall d': nat, v': nat ::
              Lookup(m', d', v') == if d' == d && v' == v then Pte(p, flags) else Lookup(m, d', v')
  {
    var w := WithPte(m, d, v, Pte(p, flags));
    var m', o := w.(bytes := m.bytes[p := data]), owner[p := IsUser(d, v)];
    forall d': nat, v': nat
      ensures Lookup(m', d', v') == if d' == d && v' == v then Pte(p, flags) else Lookup(m, d', v')
    {
      PteWritten(m, owner, d, v, Pte(p, flags), d', v');
      assert Lookup(m', d', v') == Lookup(w, d', v');
    }
    forall d': nat ensures DirOk(m', o, d') { assert DirOk(m, owner, d'); }
    forall d': nat, i': nat ensures TableOk(m', o, d', i') { assert TableOk(m, owner, d', i'); }
    forall d': nat, v': nat ensures UserOk(m', o, d', v') { assert UserOk(m, owner, d', v'); }
    forall q: nat ensures UseOk(m', o, q) { assert UseOk(m, owner, q); }
  }

  /** Mapping a kernel page: it is not the address space's own. */
  lemma KernelMapped(m: Mem, owner: Owners, d: nat, v: nat, e: Pte)
    requires Owned(m, owner) && HasTable(m, d, v) && KERNBASE <= v
    ensures Owned(WithPte(m, d, v, e), owner)
  {
    var m' := WithPte(m, d, v, e);
    forall d': nat, v': nat ensures Lookup(m', d', v') == if d' == d && v' == v then e else Lookup(m, d', v') {
      PteWritten(m, owner, d, v, e, d', v');
    }
    forall d': nat ensures DirOk(m', owner, d') { assert DirOk(m, owner, d'); }
    forall d': nat, i': nat ensures TableOk(m', owner, d', i') { assert TableOk(m, owner, d', i'); }
    forall d': nat, v': nat ensures UserOk(m', owner, d', v') { assert UserOk(m, owner, d', v'); }
    forall q: nat ensures UseOk(m', owner, q) { assert UseOk(m, owner, q); }
  }

  /** Unmapping a user page and forgetting it. */
  lemma PageUnmapped(m: Mem, owner: Owners, d: nat, v: nat)
    requires Owned(m, owner) && HasTable(m, d, v) && v < KERNBASE && Lookup(m, d, v).Pte?
    ensures var p := Lookup(m, d, v).ppn;
            var m' := WithPte(m, d, v, NoPte).(bytes := m.bytes - {p});
            && p in owner && owner[p] == IsUser(d, v)
            && Owned(m', owner - {p})
            && forall d': nat, v': nat :: Lookup(m', d', v') == if d' == d && v' == v then NoPte else Lookup(m, d', v')
  {
    var p := Lookup(m, d, v).ppn;
    var w := WithPte(m, d, v, NoPte);
    var m', o := w.(bytes := m.bytes - {p}), owner - {p};
    assert UserOk(m, owner, d, v);
    forall d': nat, v': nat ensures Lookup(m', d', v') == if d' == d && v' == v then NoPte else Lookup(m, d', v') {
      PteWritten(m, owner, d, v, NoPte, d', v');
      assert Lookup(m', d', v') == Lookup(w, d', v');
    }
    forall d': nat ensures DirOk(m', o, d') { assert DirOk(m, owner, d'); }
    forall d': nat, i': nat ensures TableOk(m', o, d', i') { assert TableOk(m, owner, d', i'); }
    forall d': nat, v': nat ensures UserOk(m', o, d', v') { assert UserOk(m, owner, d', v'); }
    forall q: nat ensures UseOk(m', o, q) { assert UseOk(m, owner, q); }
  }

  lemma DirAdded(m: Mem, owner: Owners, d: nat)
    requires Owned(m, owner) && Unused(owner, d)
    ensures d !in m.dirs
    ensures var m' := m.(dirs := m.dirs[d := ZeroDir()]);
            && Owned(m', owner[d := IsDir])
            && forall d': nat, v: nat :: Lookup(m', d', v) == Lookup(m, d', v)
  {
    var m', o := m.(dirs := m.dirs[d := ZeroDir()]), owner[d := IsDir];
    assert DirOk(m, owner, d);
    forall d': nat, v: nat ensures Lookup(m', d', v) == Lookup(m, d', v) { }
    forall d': nat ensures DirOk(m', o, d') { assert DirOk(m, owner, d'); }
    forall d': nat, i': nat ensures TableOk(m', o, d', i') { assert TableOk(m, owner, d', i'); }
    forall d': nat, v': nat ensures UserOk(m', o, d', v') { assert UserOk(m, owner, d', v'); }
    forall q: nat ensures UseOk(m', o, q) { assert UseOk(m, owner, q); }
  }

  /** Dropping a table that maps no user page. */
  lemma TableDropped(m: Mem, owner: Owners, d: nat, i: nat)
    requires Owned(m, owner) && d in m.dirs && i < NENTRIES && m.dirs[d][i].Some?
    requires forall v: nat :: v < KERNBASE ==> Lookup(m, d, v).NoPte?
    ensures var t := m.dirs[d][i].value;
            var m' := m.(dirs := m.dirs[d := m.dirs[d][i := None]], tabs := m.tabs - {t});
            && t in owner && owner[t] == IsTable(d, i)
            && Owned(m', owner - {t})
            && (forall d': nat, v: nat :: d' != d ==> Lookup(m', d', v) == Lookup(m, d', v))
            && (forall v: nat :: v < KERNBASE ==> Lookup(m', d, v).NoPte?)
  {
    var t := m.dirs[d][i].value;
    var m', o := m.(dirs := m.dirs[d := m.dirs[d][i := None]], tabs := m.tabs - {t}), owner - {t};
    assert TableOk(m, owner, d, i);
    forall d': nat, v: nat
      ensures d' != d || Pdx(v) != i ==> Lookup(m', d', v) == Lookup(m, d', v)
      ensures d' == d && Pdx(v) == i ==> Lookup(m', d', v).NoPte?
    {
      if d' in m.dirs && v < NPAGES { assert TableOk(m, owner, d', Pdx(v)); }
    }
    forall d': nat ensures DirOk(m', o, d') { assert DirOk(m, owner, d'); }
    forall d': nat, i': nat ensures TableOk(m', o, d', i') { assert TableOk(m, owner, d', i'); }
    forall d': nat, v': nat ensures UserOk(m', o, d', v') { assert UserOk(m, owner, d', v'); }
    forall q: nat ensures UseOk(m', o, q) { assert UseOk(m, owner, q); }
  }

  lemma DirDropped(m: Mem, owner: Owners, d: nat)
    requires Owned(m, owner) && d in m.dirs && forall i :: 0 <= i < NENTRIES ==> m.dirs[d][i].None?
    ensures var m' := m.(dirs := m.dirs - {d});
            && d in owner && Owned(m', owner - {d})
            && forall d': nat, v: nat :: Lookup(m', d', v) == Lookup(m, d', v)
  {
    var m', o := m.(dirs := m.dirs - {d}), owner - {d};
    assert DirOk(m, owner, d);
    forall d': nat, v: nat ensures Lookup(m', d', v) == Lookup(m, d', v) { }
    forall d': nat ensures DirOk(m', o, d') { assert DirOk(m, owner, d'); }
    forall d': nat, i': nat ensures TableOk(m', o, d', i') { assert TableOk(m, owner, d', i'); }
    forall d': nat, v': nat ensures UserOk(m', o, d', v') { assert UserOk(m, owner, d', v'); }
    forall q: nat ensures UseOk(m', o, q) { assert UseOk(m, owner, q); }
  }

  // ----- the scan of deallocuvm -----

  /** The pages that deallocuvm's loop frees, from page a on: a page without a table makes it
      jump NENTRIES pages ahead. */
  function Scan(m: Mem, d: nat, a: nat, end: nat): (r: set<nat>)
    decreases end - a
  {
    if a >= end then {}
    else if !HasTable(m, d, a) then Scan(m, d, a + NENTRIES, end)
    else (if Lookup(m, d, a).Pte? then {a} else {}) + Scan(m, d, a + 1, end)
  }

  lemma ScanNext(m: Mem, d: nat, a: nat, next: nat, end: nat, gone: set<nat>, gone': set<nat>)
    requires a < end && next == if HasTable(m, d, a) then a + 1 else a + NENTRIES
    requires gone' == if Lookup(m, d, a).Pte? then gone + {a} else gone
    ensures gone' + Scan(m, d, next, end) == gone + Scan(m, d, a, end)
  {
  }

  /** The pages that are mapped. */
  function MappedIn(m: Mem, d: nat, a: nat, end: nat): (r: set<nat>)
  {
    set v: nat | a <= v < end && Lookup(m, d, v).Pte?
  }

  /** Where the jumps from a end: at the first page of a, a + NENTRIES, ... that has a table. */
  function Landing(m: Mem, d: nat, a: nat, end: nat): (b: nat)
    decreases end - a
  {
    if a >= end || HasTable(m, d, a) then a else Landing(m, d, a + NENTRIES, end)
  }

  lemma {:induction false} ScanSound(m: Mem, d: nat, a: nat, end: nat)
    ensures Scan(m, d, a, end) <= MappedIn(m, d, a, end)
    decreases end - a
  {
    if a < end {
      if !HasTable(m, d, a) {
        ScanSound(m, d, a + NENTRIES, end);
      } else {
        ScanSound(m, d, a + 1, end);
      }
    }
  }

  /** Starting on a directory boundary, or on a page with a table, nothing is missed. */
  lemma {:induction false} ScanComplete(m: Mem, d: nat, a: nat, end: nat)
    requires Ptx(a) == 0 || HasTable(m, d, a)
    ensures Scan(m, d, a, end) == MappedIn(m, d, a, end)
    decreases end - a
  {
    if a < end {
      if !HasTable(m, d, a) {
        ScanComplete(m, d, a + NENTRIES, end);
        forall v: nat | a <= v < a + NENTRIES ensures Lookup(m, d, v).NoPte? {
          assert Pdx(v) == Pdx(a);
        }
      } else {
        assert Ptx(a + 1) == 0 || Pdx(a + 1) == Pdx(a);
        assert Pdx(a + 1) == Pdx(a) ==> a + 1 < NPAGES;
        ScanComplete(m, d, a + 1, end);
      }
    }
  }

  lemma {:induction false} ScanLanding(m: Mem, d: nat, a: nat, end: nat)
    ensures a <= Landing(m, d, a, end)
    ensures Scan(m, d, a, end) == MappedIn(m, d, Landing(m, d, a, end), end)
    decreases end - a
  {
    if a >= end {
    } else if HasTable(m, d, a) {
      ScanComplete(m, d, a, end);
    } else {
      ScanLanding(m, d, a + NENTRIES, end);
    }
  }

  /** The jump is harmless exactly when nothing is mapped below the page it lands on. */
  lemma ScanExactly(m: Mem, d: nat, a: nat, end: nat)
    ensures Scan(m, d, a, end) == MappedIn(m, d, a, end) <==>
            MappedIn(m, d, a, if Landing(m, d, a, end) < end then Landing(m, d, a, end) else end) == {}
  {
    ScanLanding(m, d, a, end);
    var b := Landing(m, d, a, end);
    var skipped := MappedIn(m, d, a, if b < end then b else end);
    assert MappedIn(m, d, a, end) == skipped + MappedIn(m, d, b, end);
    assert skipped !! MappedIn(m, d, b, end);
  }

  /** User memory that is mapped from 0 up to page n and no further. */
  ghost predicate Contiguous(m: Mem, d: nat, n: nat)
  {
    forall v: nat :: v < KERNBASE ==> (Lookup(m, d, v).Pte? <==> v < n)
  }

  lemma ContiguousScan(m: Mem, d: nat, n: nat, a: nat, end: nat)
    requires Contiguous(m, d, n) && end <= KERNBASE
    ensures Scan(m, d, a, end) == MappedIn(m, d, a, end)
  {
    ScanExactly(m, d, a, end);
    if !HasTable(m, d, a) && a < end {
      assert Lookup(m, d, a).NoPte?;
    }
  }

  /** A mapping on which deallocuvm, asked to free the pages from 1 up, leaves one behind: the
      first directory is empty, the second has its first page mapped. */
  lemma JumpMisses(m: Mem, d: nat)
    requires d in m.dirs && m.dirs[d][0].None? && Lookup(m, d, NENTRIES).Pte?
    ensures NENTRIES in MappedIn(m, d, 1, 2 * NENTRIES) && NENTRIES !in Scan(m, d, 1, 2 * NENTRIES)
  {
    assert !HasTable(m, d, 1);
    ScanSound(m, d, 1 + NENTRIES, 2 * NENTRIES);
  }

  // ----- the free list -----

  lemma FreeTaken(free: seq<nat>, owner: Owners, all: set<nat>, u: Use)
    requires FreeOk(free, owner, all) && free != []
    ensures free[0] !in owner && FreeOk(free[1..], owner[free[0] := u], all)
  {
    assert free[0] in free;
    assert forall p :: p in free[1..] ==> p in free;
    forall p | p in all && p !in owner[free[0] := u] ensures p in free[1..] {
      assert p in free;
    }
    forall p | p in free[1..] ensures p != free[0] {
      var i :| 0 <= i < |free[1..]| && free[1..][i] == p;
      assert free[i + 1] == p;
    }
  }

  lemma FreeGiven(free: seq<nat>, owner: Owners, all: set<nat>, p: nat)
    requires FreeOk(free, owner, all) && p in owner
    ensures FreeOk([p] + free, owner - {p}, all)
  {
  }

  lemma {:induction false} CountOnce(a: seq<nat>, p: nat)
    requires forall i, j :: 0 <= i < j < |a| ==> a[i] != a[j]
    ensures multiset(a)[p] == if p in a then 1 else 0
  {
    if a != [] {
      var n := |a| - 1;
      assert a == a[..n] + [a[n]];
      CountOnce(a[..n], p);
    }
  }

  lemma {:induction false} SameElements(a: seq<nat>, b: seq<nat>)
    requires forall i, j :: 0 <= i < j < |a| ==> a[i] != a[j]
    requires forall i, j :: 0 <= i < j < |b| ==> b[i] != b[j]
    requires forall p :: p in a <==> p in b
    ensures multiset(a) == multiset(b)
  {
    forall p ensures multiset(a)[p] == multiset(b)[p] {
      CountOnce(a, p);
      CountOnce(b, p);
    }
  }

  /** The free pages are determined by what is in use. */
  lemma FreeDetermined(free: seq<nat>, free': seq<nat>, owner: Owners, all: set<nat>)
    requires FreeOk(free, owner, all) && FreeOk(free', owner, all)
    ensures multiset(free) == multiset(free')
  {
    assert forall p :: p in free <==> p in free';
    SameElements(free, free');
  }

  // ----- what a copy costs -----

  /** The directory entries that exist. */
  ghost function DirSet(m: Mem, d: nat): set<nat>
  {
    set i: nat | i < NENTRIES && d in m.dirs && m.dirs[d][i].Some?
  }

  /** How many pages walkpgdir must allocate for virtual page v. */
  function Missing(m: Mem, d: nat, v: nat): nat
  {
    if HasTable(m, d, v) then 0 else 1
  }

  /** Directory d has gained at most entry i, and now has it. */
  ghost predicate DirGrown(m: Mem, m': Mem, d: nat, i: nat)
  {
    && d in m.dirs && d in m'.dirs && i < NENTRIES && m'.dirs[d][i].Some?
    && (forall j: nat :: j < NENTRIES && j != i ==> m'.dirs[d][j] == m.dirs[d][j])
  }

  lemma DirSetGrown(m: Mem, owner: Owners, m': Mem, d: nat, v: nat)
    requires Owned(m, owner) && v < NPAGES && DirGrown(m, m', d, Pdx(v))
    ensures DirSet(m', d) == DirSet(m, d) + {Pdx(v)}
    ensures |DirSet(m', d)| == |DirSet(m, d)| + Missing(m, d, v)
  {
    assert TableOk(m, owner, d, Pdx(v));
    assert Pdx(v) in DirSet(m, d) <==> HasTable(m, d, v);
    assert DirSet(m', d) == DirSet(m, d) + {Pdx(v)};
  }

  predicate Within(a: nat, b: nat, i: nat)
  {
    a <= i < b
  }

  function Between(a: nat, b: nat): set<nat>
  {
    set i: nat | i < b && Within(a, b, i)
  }

  /** An entry of kmap[], in pages. */
  datatype Range = Range(v: nat, n: nat, ppn: nat, flags: nat)

  /** The directory entries that a range needs. */
  function Dirs(r: Range): set<nat>
  {
    if r.n == 0 then {} else Between(Pdx(r.v), Pdx(r.v + r.n - 1) + 1)
  }

  lemma {:induction false} BetweenSize(a: nat, b: nat)
    requires a <= b
    ensures |Between(a, b)| == b - a
  {
    if a == b {
      assert Between(a, b) == {};
    } else {
      BetweenSize(a, b - 1);
      assert Between(a, b) == Between(a, b - 1) + {b - 1};
    }
  }

  /** What the first k pages of a range need. */
  function DirsUpTo(r: Range, k: nat): set<nat>
  {
    if k == 0 then {} else Between(Pdx(r.v), Pdx(r.v + k - 1) + 1)
  }

  lemma BetweenNext(a: nat, c: nat, b: nat)
    requires a <= c <= b <= c + 1
    ensures Between(a, b + 1) == Between(a, c + 1) + {b}
  {
    var x, y := Between(a, b + 1), Between(a, c + 1);
    assert forall i: nat :: i in x <==> i in y + {b};
  }

  lemma DirsNext(r: Range, k: nat, next: nat, v: nat)
    requires next == k + 1 && k < r.n && v == r.v + k
    ensures DirsUpTo(r, next) == DirsUpTo(r, k) + {Pdx(v)} && Pdx(v) in Dirs(r) && DirsUpTo(r, k) <= Dirs(r)
  {
    var a, b := Pdx(r.v), Pdx(v);
    assert a <= b <= Pdx(r.v + r.n - 1);
    if k > 0 {
      var c := Pdx(v - 1);
      assert a <= c <= b <= c + 1;
      BetweenNext(a, c, b);
    } else {
      assert DirsUpTo(r, next) == Between(a, a + 1);
    }
  }

  function RangeAt(r: Range, v: nat, other: Pte): Pte
  {
    if r.v <= v < r.v + r.n then Pte(r.ppn + (v - r.v), r.flags) else other
  }

  /** The first k pages of the range have been mapped, and nothing else has changed. */
  ghost predicate MappedSome(m0: Mem, m: Mem, d: nat, r: Range, k: nat)
  {
    && (forall d': nat, v: nat :: d' != d ==> Lookup(m, d', v) == Lookup(m0, d', v))
    && (forall v: nat :: Lookup(m, d, v) == RangeAt(r.(n := k), v, Lookup(m0, d, v)))
  }

  lemma MappedNext(m0: Mem, m1: Mem, m: Mem, d: nat, r: Range, k: nat, next: nat, v: nat)
    requires MappedSome(m0, m1, d, r, k) && next == k + 1 && v == r.v + k
    requires forall d': nat, v': nat ::
      Lookup(m, d', v') == if d' == d && v' == v then Pte(r.ppn + k, r.flags) else Lookup(m1, d', v')
    ensures MappedSome(m0, m, d, r, next)
  {
  }

  predicate RangeOk(r: Range)
  {
    KERNBASE <= r.v && 0 < r.n && r.v + r.n <= NPAGES
  }

  lemma MappedNone(m0: Mem, m: Mem, d: nat, r: Range, k: nat)
    requires MappedSome(m0, m, d, r, k) && RangeOk(r)
    ensures forall d': nat, v: nat :: d' != d || v < KERNBASE ==> Lookup(m, d', v) == Lookup(m0, d', v)
  {
  }

  /** All that was in use is in use for the same; anything new is a table of d. */
  ghost predicate TablesOnly(owner: Owners, owner': Owners, d: nat)
  {
    && (forall p: nat :: p in owner ==> p in owner' && owner'[p] == owner[p])
    && (forall p: nat :: p in owner' && p !in owner ==> owner'[p].IsTable? && owner'[p].d == d)
  }

  /** The state of mappages on kernel pages after k turns. */
  ghost predicate RangeMapped(m0: Mem, owner0: Owners, m: Mem, owner: Owners, d: nat, r: Range, k: nat)
  {
    && m.dirs.Keys == m0.dirs.Keys && m.bytes == m0.bytes && TablesOnly(owner0, owner, d)
    && MappedSome(m0, m, d, r, k)
    && DirSet(m, d) == DirSet(m0, d) + DirsUpTo(r, k)
  }

  lemma MappedAll(m0: Mem, owner0: Owners, m: Mem, owner: Owners, d: nat, r: Range)
    requires RangeMapped(m0, owner0, m, owner, d, r, r.n) && RangeOk(r)
    ensures forall d': nat, v: nat :: d' != d || v < KERNBASE ==> Lookup(m, d', v) == Lookup(m0, d', v)
    ensures forall v: nat :: Lookup(m, d, v) == RangeAt(r, v, Lookup(m0, d, v))
    ensures DirSet(m, d) == DirSet(m0, d) + Dirs(r)
  {
    assert r.(n := r.n) == r;
  }

  function Touched(kmap: seq<Range>): set<nat>
  {
    if kmap == [] then {} else Touched(kmap[..|kmap| - 1]) + Dirs(kmap[|kmap| - 1])
  }

  lemma {:induction false} TouchedPrefix(kmap: seq<Range>, k: nat)
    requires k <= |kmap|
    ensures Touched(kmap[..k]) <= Touched(kmap)
    decreases |kmap| - k
  {
    if k == |kmap| {
      assert kmap[..k] == kmap;
    } else {
      assert kmap[..k + 1][..k] == kmap[..k];
      TouchedPrefix(kmap, k + 1);
    }
  }

  lemma TouchedNext(kmap: seq<Range>, k: nat, next: nat)
    requires next == k + 1 <= |kmap|
    ensures Touched(kmap[..next]) == Touched(kmap[..k]) + Dirs(kmap[k]) <= Touched(kmap)
  {
    assert kmap[..next][..k] == kmap[..k];
    TouchedPrefix(kmap, next);
  }

  /** The pages that setupkvm takes: the directory and the tables. */
  function SetupCost(kmap: seq<Range>): nat
  {
    1 + |Touched(kmap)|
  }

  /** The pages that n user pages take in a new address space, with their tables. */
  function UserCost(n: nat): nat
  {
    n + (n + NENTRIES - 1) / NENTRIES
  }

  function CopyCost(kmap: seq<Range>, n: nat): nat
  {
    SetupCost(kmap) + UserCost(n)
  }

  /** With f free pages, a page is taken for which there is no table. */
  ghost predicate CopyLoses(kmap: seq<Range>, n: nat, f: nat)
  {
    exists v: nat :: v < n && v % NENTRIES == 0 && f == CopyCost(kmap, v) + 1
  }

  lemma SmallerSet(a: set<nat>, b: set<nat>)
    requires a < b
    ensures |a| < |b|
  {
    assert b == a + (b - a);
  }

  /** The kernel's mappings lie above KERNBASE and do not overlap. */
  predicate KmapOk(kmap: seq<Range>)
  {
    && (forall i :: 0 <= i < |kmap| ==> RangeOk(kmap[i]))
    && (forall i, j :: 0 <= i < j < |kmap| ==> kmap[i].v + kmap[i].n <= kmap[j].v)
  }

  lemma {:induction false} KernelTables(kmap: seq<Range>, i: nat)
    requires KmapOk(kmap) && i in Touched(kmap)
    ensures Pdx(KERNBASE) <= i
  {
    assert RangeOk(kmap[|kmap| - 1]);
    if i !in Dirs(kmap[|kmap| - 1]) {
      KernelTables(kmap[..|kmap| - 1], i);
    }
  }

  /** Adding the pages from a on, will page v need a new table? */
  predicate NeedsTable(m: Mem, d: nat, a: nat, v: nat)
  {
    !HasTable(m, d, v) && (v == a || Ptx(v) == 0)
  }

  /** How many pages it takes to add pages a up to v. */
  function Cost(m: Mem, d: nat, a: nat, v: nat): (c: nat)
  {
    if v <= a then 0 else Cost(m, d, a, v - 1) + 1 + (if NeedsTable(m, d, a, v - 1) then 1 else 0)
  }

  lemma {:induction false} CostOfUser(m: Mem, d: nat, n: nat)
    requires n <= KERNBASE && forall v: nat :: v < KERNBASE ==> !HasTable(m, d, v)
    ensures Cost(m, d, 0, n) == UserCost(n)
    ensures forall v: nat :: v < KERNBASE ==> (NeedsTable(m, d, 0, v) <==> v % NENTRIES == 0)
  {
    if n > 0 {
      CostOfUser(m, d, n - 1);
    }
  }

  /** With f free pages, the last one goes to page v, and there is none for its table. */
  predicate StuckAt(m: Mem, d: nat, a: nat, v: nat, f: nat)
  {
    NeedsTable(m, d, a, v) && f == Cost(m, d, a, v) + 1
  }

  function KmapAt(kmap: seq<Range>, v: nat): Pte
  {
    if kmap == [] then NoPte else RangeAt(kmap[|kmap| - 1], v, KmapAt(kmap[..|kmap| - 1], v))
  }

  /** What setupkvm maps: a page in the i-th range to its physical page; no other page. */
  lemma {:induction false} KmapIs(kmap: seq<Range>, v: nat, i: nat)
    requires KmapOk(kmap)
    ensures i < |kmap| && kmap[i].v <= v < kmap[i].v + kmap[i].n ==>
      KmapAt(kmap, v) == Pte(kmap[i].ppn + v - kmap[i].v, kmap[i].flags)
    ensures (forall j :: 0 <= j < |kmap| ==> !(kmap[j].v <= v < kmap[j].v + kmap[j].n)) ==> KmapAt(kmap, v).NoPte?
    decreases |kmap|
  {
    if kmap != [] {
      KmapIs(kmap[..|kmap| - 1], v, i);
    }
  }

  lemma {:induction false} KmapUser(kmap: seq<Range>, v: nat)
    requires KmapOk(kmap) && v < KERNBASE
    ensures KmapAt(kmap, v).NoPte?
  {
    if kmap != [] {
      KmapUser(kmap[..|kmap| - 1], v);
    }
  }

  /** What a new address space is like for copyuvm and allocuvm. */
  lemma NewSpace(m: Mem, owner: Owners, d: nat, kmap: seq<Range>, n: nat, f: nat)
    requires Owned(m, owner) && KmapOk(kmap) && DirSet(m, d) == Touched(kmap) && n <= KERNBASE
    requires forall v: nat :: Lookup(m, d, v) == KmapAt(kmap, v)
    ensures Contiguous(m, d, 0)
    ensures Cost(m, d, 0, n) == UserCost(n)
    ensures forall v: nat :: v < n ==> (StuckAt(m, d, 0, v, f) <==> v % NENTRIES == 0 && f == UserCost(v) + 1)
  {
    forall v: nat | v < KERNBASE ensures KmapAt(kmap, v).NoPte? && !HasTable(m, d, v) {
      KmapUser(kmap, v);
      if HasTable(m, d, v) {
        KernelTables(kmap, Pdx(v));
      }
    }
    CostOfUser(m, d, n);
    forall v: nat | v < n ensures StuckAt(m, d, 0, v, f) <==> v % NENTRIES == 0 && f == UserCost(v) + 1 {
      CostOfUser(m, d, v);
    }
  }

  ghost predicate CopyStop(m: Mem, nd: nat, n: nat, f: nat, ok: bool, w: nat, leak: Option<nat>)
  {
    if ok then leak.None? && f >= Cost(m, nd, 0, n)
    else w < n && if leak.None? then f == Cost(m, nd, 0, w) else StuckAt(m, nd, 0, w, f)
  }

  lemma {:induction false} CostGrows(m: Mem, d: nat, a: nat, v: nat, v': nat)
    requires v <= v'
    ensures Cost(m, d, a, v) <= Cost(m, d, a, v')
    decreases v'
  {
    if v < v' {
      CostGrows(m, d, a, v, v' - 1);
    }
  }

  /** How the loop of copyuvm ends, from the number of free pages alone. */
  lemma CopyExactly(m: Mem, nd: nat, n: nat, f: nat, ok: bool, w: nat, leak: Option<nat>)
    requires CopyStop(m, nd, n, f, ok, w, leak)
    ensures ok <==> f >= Cost(m, nd, 0, n)
    ensures leak.Some? <==> exists v: nat :: v < n && StuckAt(m, nd, 0, v, f)
  {
    if !ok {
      CostGrows(m, nd, 0, w + 1, n);
    }
    forall v: nat | v < n && StuckAt(m, nd, 0, v, f) ensures leak.Some? {
      CostGrows(m, nd, 0, v + 1, n);
      if !ok && w <= v {
        CostGrows(m, nd, 0, w, v);
      } else if !ok {
        CostGrows(m, nd, 0, v + 1, w);
      }
    }
  }

  lemma CopyLosesHere(m: Mem, nd: nat, kmap: seq<Range>, n: nat, f: nat, g: nat)
    requires f == g + SetupCost(kmap)
    requires forall v: nat :: v < n ==> (StuckAt(m, nd, 0, v, g) <==> v % NENTRIES == 0 && g == UserCost(v) + 1)
    ensures CopyLoses(kmap, n, f) <==> exists v: nat :: v < n && StuckAt(m, nd, 0, v, g)
  {
    if CopyLoses(kmap, n, f) {
      var v: nat :| v < n && v % NENTRIES == 0 && f == CopyCost(kmap, v) + 1;
      assert StuckAt(m, nd, 0, v, g);
    }
    if exists v: nat :: v < n && StuckAt(m, nd, 0, v, g) {
      var v: nat :| v < n && StuckAt(m, nd, 0, v, g);
      assert f == CopyCost(kmap, v) + 1;
    }
  }

  lemma LosesOrNot(kmap: seq<Range>, n: nat, f: nat)
    ensures CopyLoses(kmap, n, f) ==> f >= SetupCost(kmap)
  {
  }

  /** Do f free pages fall short, other than by the last page's table? */
  predicate Fails(m: Mem, d: nat, a: nat, end: nat, f: nat)
  {
    f < Cost(m, d, a, end) && !(a < end && StuckAt(m, d, a, end - 1, f))
  }

  /** Where the mapped memory ends after allocuvm. */
  function Reached(m: Mem, d: nat, a: nat, end: nat, f: nat): (w: nat)
  {
    if f >= Cost(m, d, a, end) then end
    else if a < end && StuckAt(m, d, a, end - 1, f) then end - 1
    else a
  }

  /** One free page, no table and a first page to add: allocuvm reports success, the page is
      not mapped, and it is lost. */
  lemma LastPageLost(d: nat)
    ensures
      var m := Mem(map[d := ZeroDir()], map[], map[]);
      && Owned(m, map[d := IsDir]) && (forall v: nat :: Lookup(m, d, v).NoPte?)
      && StuckAt(m, d, 0, 0, 1) && !Fails(m, d, 0, 1, 1) && Reached(m, d, 0, 1, 1) == 0
  {
    var m := Mem(map[d := ZeroDir()], map[], map[]);
    assert Cost(m, d, 0, 0) == 0;
    assert StuckAt(m, d, 0, 0, 1);
  }

  /** One free page more than the kernel's part takes, and one page to copy: it is lost. */
  lemma CopyLosesOne(kmap: seq<Range>)
    ensures CopyLoses(kmap, 1, SetupCost(kmap) + 1)
  {
    assert 0 % NENTRIES == 0 && CopyCost(kmap, 0) == SetupCost(kmap);
  }

  /** The table in kern/vm.c, `data` being the page where the kernel's data starts. */
  function Kmap(data: nat): seq<Range>
    requires KERNBASE + 256 < data < KERNBASE + 57344
  {
    [Range(KERNBASE, 256, 0, 2),
     Range(KERNBASE + 256, data - KERNBASE - 256, 256, 0),
     Range(data, KERNBASE + 57344 - data, data - KERNBASE, 2),
     Range(1040384, 8192, 1040384, 2)]
  }

  lemma KernelInOrder(data: nat)
    requires KERNBASE + 256 < data < KERNBASE + 57344
    ensures KmapOk(Kmap(data))
  {
  }

  lemma KernelRanges(data: nat, a: nat, b: nat)
    requires KERNBASE + 256 < data < KERNBASE + 57344 && a == Pdx(data - 1) && b == Pdx(data)
    ensures 512 <= a <= b <= a + 1 && b <= 567
    ensures Dirs(Kmap(data)[0]) == Between(512, 513) && Dirs(Kmap(data)[1]) == Between(512, a + 1)
    ensures Dirs(Kmap(data)[2]) == Between(b, 568) && Dirs(Kmap(data)[3]) == Between(1016, 1024)
  {
  }

  lemma TouchedFour(k: seq<Range>)
    requires |k| == 4
    ensures Touched(k) == Dirs(k[0]) + Dirs(k[1]) + Dirs(k[2]) + Dirs(k[3])
  {
    var k3, k2, k1 := k[..3], k[..2], k[..1];
    assert k3[..2] == k2 && k2[..1] == k1 && k1[..0] == [];
    assert Touched(k) == Touched(k3) + Dirs(k[3]);
    assert Touched(k3) == Touched(k2) + Dirs(k[2]);
    assert Touched(k2) == Touched(k1) + Dirs(k[1]);
    assert Touched(k1) == Touched([]) + Dirs(k[0]);
  }

  lemma KernelDirs(a: nat, b: nat)
    requires 512 <= a <= b <= a + 1 && b <= 567
    ensures |Between(512, 513) + Between(512, a + 1) + Between(b, 568) + Between(1016, 1024)| == 64
  {
    var low, high := Between(512, 568), Between(1016, 1024);
    assert Between(512, 513) + Between(512, a + 1) + Between(b, 568) == low;
    assert low !! high;
    BetweenSize(512, 568);
    BetweenSize(1016, 1024);
  }

  /** The kernel's own mappings are in order and touch 64 directory entries. */
  lemma KernelCost(data: nat)
    requires KERNBASE + 256 < data < KERNBASE + 57344
    ensures KmapOk(Kmap(data)) && SetupCost(Kmap(data)) == 65
  {
    var a, b := Pdx(data - 1), Pdx(data);
    KernelInOrder(data);
    TouchedFour(Kmap(data));
    KernelRanges(data, a, b);
    KernelDirs(a, b);
  }

  /** The kernel's map: physical memory from KERNBASE on, devices at their own addresses, all writable
      but the kernel's text; nothing else, and nothing for the user. */
  lemma KernelMap(data: nat, v: nat)
    requires KERNBASE + 256 < data < KERNBASE + 57344
    ensures KERNBASE <= v < KERNBASE + 57344 ==>
      KmapAt(Kmap(data), v) == Pte(v - KERNBASE, if KERNBASE + 256 <= v < data then 0 else 2)
    ensures 1040384 <= v < 1048576 ==> KmapAt(Kmap(data), v) == Pte(v, 2)
    ensures v < KERNBASE || KERNBASE + 57344 <= v < 1040384 || 1048576 <= v ==> KmapAt(Kmap(data), v).NoPte?
  {
    KernelInOrder(data);
    KmapIs(Kmap(data), v, 0);
    KmapIs(Kmap(data), v, 1);
    KmapIs(Kmap(data), v, 2);
    KmapIs(Kmap(data), v, 3);
  }

  // ----- resizing -----

  /** PGROUNDUP, in pages. */
  function Up(sz: nat): nat
  {
    (sz + PGSIZE - 1) / PGSIZE
  }

  /** The least number of pages that hold sz bytes. */
  lemma UpIs(sz: nat)
    ensures sz <= Up(sz) * 4096 && (sz > 0 ==> (Up(sz) - 1) * 4096 < sz) && (sz == 0 ==> Up(sz) == 0)
  {
  }

  lemma UpRoom(sz: nat, target: nat)
    requires sz <= target
    ensures target < KERNBASE * PGSIZE ==> Up(sz) <= Up(target) <= KERNBASE
  {
  }

  lemma UpDown(target: nat, sz: nat)
    requires target < sz <= KERNBASE * PGSIZE
    ensures Up(target) <= Up(sz) <= KERNBASE
  {
  }

  lemma NotUpTo(m: Mem, d: nat, sz: nat)
    requires Contiguous(m, d, 0) && sz > 0
    ensures Up(0) == 0 && !Contiguous(m, d, Up(sz))
  {
    assert Lookup(m, d, 0).NoPte?;
  }

  /** Adding pages a up to end with f free pages, is a page taken for which there is no table? */
  ghost predicate Starves(m: Mem, d: nat, a: nat, end: nat, f: nat)
  {
    exists v: nat :: a <= v < end && StuckAt(m, d, a, v, f)
  }

  /** Growing from sz to target bytes, is it the last page for which there is no table? */
  predicate LastMissing(m: Mem, d: nat, sz: nat, target: nat, f: nat)
  {
    target < KERNBASE * PGSIZE && Up(sz) < Up(target) && StuckAt(m, d, Up(sz), Up(target) - 1, f)
  }

  /** The memory content a page starts with. */
  function Zeros(): Page
  {
    seq(PGSIZE, _ => 0)
  }

  /** Page v is mapped, with these flags and this content. */
  ghost predicate Holds(m: Mem, d: nat, v: nat, flags: nat, data: Page)
  {
    var e := Lookup(m, d, v);
    e.Pte? && e.flags == flags && e.ppn in m.bytes && m.bytes[e.ppn] == data
  }

  ghost function Lost(leak: Option<nat>): set<nat>
  {
    if leak.Some? then {leak.value} else {}
  }

  /** What was in use keeps its content. */
  ghost predicate BytesKept(m: Mem, m': Mem, owner: Owners)
  {
    forall q: nat :: q in owner && q in m.bytes ==> q in m'.bytes && m'.bytes[q] == m.bytes[q]
  }

  /** The pages of address space d. */
  ghost predicate InSpace(owner: Owners, d: nat, p: nat)
    requires p in owner
  {
    p == d || (owner[p].IsTable? && owner[p].d == d) || (owner[p].IsUser? && owner[p].d == d)
  }

  /** All that was in use is in use for the same; anything new is address space d's. */
  ghost predicate SpaceOnly(owner: Owners, owner': Owners, d: nat)
  {
    && (forall p: nat :: p in owner ==> p in owner' && owner'[p] == owner[p])
    && (forall p: nat :: p in owner' && p !in owner ==> InSpace(owner', d, p))
  }

  /** Pages a up to w have been added to address space d, and zeroed; nothing else has changed but
      that one page may have been leaked. */
  ghost predicate Grew(m0: Mem, owner0: Owners, m: Mem, owner: Owners, d: nat, a: nat, w: nat, leak: Option<nat>)
  {
    && (forall d': nat, v: nat :: d' != d || v < a || w <= v ==> Lookup(m, d', v) == Lookup(m0, d', v))
    && (forall v: nat :: a <= v < w ==> Holds(m, d, v, 6, Zeros()))
    && BytesKept(m0, m, owner0)
    && SpaceOnly(owner0, owner - Lost(leak), d)
    && (leak.Some? ==> leak.value !in owner0 && leak.value in owner && owner[leak.value].Loose?)
  }

  /** Memory that reaches from 0 to the process size stays so under allocuvm and deallocuvm. */
  lemma ContiguousGrown(m0: Mem, owner0: Owners, m: Mem, owner: Owners, d: nat, a: nat, w: nat, leak: Option<nat>)
    requires Contiguous(m0, d, a) && a <= w && Grew(m0, owner0, m, owner, d, a, w, leak)
    ensures Contiguous(m, d, w)
  {
    forall v: nat | a <= v < w ensures Lookup(m, d, v).Pte? {
      assert Holds(m, d, v, 6, Zeros());
    }
  }

  /** Memory ends where allocuvm says, but for a last page without a table. */
  lemma AllButLast(m0: Mem, owner0: Owners, m: Mem, owner: Owners, d: nat, a: nat, end: nat, f: nat, leak: Option<nat>)
    requires Contiguous(m0, d, a) && a <= end <= KERNBASE
    requires Grew(m0, owner0, m, owner, d, a, Reached(m0, d, a, end, f), leak)
    ensures Contiguous(m, d, if Fails(m0, d, a, end, f) then a else end) <==>
            !(a < end && StuckAt(m0, d, a, end - 1, f))
  {
    ContiguousGrown(m0, owner0, m, owner, d, a, Reached(m0, d, a, end, f), leak);
    if a < end && StuckAt(m0, d, a, end - 1, f) {
      assert Cost(m0, d, a, end) == f + 1;
      assert Lookup(m, d, end - 1).NoPte?;
    }
  }

  /** What stays in use when address space d gives up the user pages `gone`. */
  ghost function Without(owner: Owners, d: nat, gone: set<nat>): Owners
  {
    map p | p in owner && !(owner[p].IsUser? && owner[p].d == d && owner[p].v in gone) :: owner[p]
  }

  /** Giving up user pages keeps everything else, and what is new is still the address space's. */
  lemma SpaceShrunk(m0: Mem, owner0: Owners, owner: Owners, d: nat, gone: set<nat>)
    requires Owned(m0, owner0) && d !in owner0 && SpaceOnly(owner0, owner, d)
    ensures SpaceOnly(owner0, Without(owner, d, gone), d)
  {
    forall p: nat | p in owner0 ensures p in Without(owner, d, gone) {
      assert UseOk(m0, owner0, p) && DirOk(m0, owner0, d);
    }
  }

  // ----- the life of an address space, in numbers -----

  /** The tables for pages 0 up to n. */
  function TablesFor(n: nat): nat
  {
    (n + NENTRIES - 1) / NENTRIES
  }

  /** With t tables there, how many when pages 0 up to n are mapped. */
  function More(t: nat, n: nat): nat
  {
    if t < TablesFor(n) then TablesFor(n) else t
  }

  function InUse(t: nat, n: nat): nat
  {
    n + More(t, n)
  }

  lemma InUseNext(t: nat, v: nat)
    ensures InUse(t, v + 1) == InUse(t, v) + 1 + if v % NENTRIES == 0 && t <= v / NENTRIES then 1 else 0
  {
    var q, r := v / NENTRIES, v % NENTRIES;
    assert v == NENTRIES * q + r;
    assert TablesFor(v) == if r == 0 then q else q + 1;
    assert TablesFor(v + 1) == q + 1;
  }

  /** A size in bytes, and the tables for user pages, which only freevm frees. */
  datatype Life = Life(sz: nat, tables: nat)

  /** How far pages from v on can be added, up to end, with `total` pages for them and tables. */
  function Reach(total: nat, t: nat, v: nat, end: nat): (w: nat)
    decreases end - v
  {
    if v < end && InUse(t, v + 1) <= total then Reach(total, t, v + 1, end) else v
  }

  lemma {:induction false} InUseGrows(t: nat, v: nat, w: nat)
    requires v <= w
    ensures InUse(t, v) <= InUse(t, w)
    decreases w
  {
    if v < w {
      InUseGrows(t, v, w - 1);
      InUseNext(t, w - 1);
    }
  }

  lemma {:induction false} ReachIs(total: nat, t: nat, v: nat, end: nat, w: nat)
    requires v <= w <= end && InUse(t, w) <= total && (w == end || InUse(t, w + 1) > total)
    ensures Reach(total, t, v, end) == w
    decreases w - v
  {
    if v < w {
      InUseGrows(t, v + 1, w);
      ReachIs(total, t, v + 1, end, w);
    }
  }

  /** Does the last page go to a page for which there is no table? */
  ghost predicate LastForNothing(total: nat, t: nat, a: nat, end: nat)
  {
    exists v: nat :: a <= v < end && v % NENTRIES == 0 && t <= v / NENTRIES && total == InUse(t, v) + 1
  }

  /** To a size; None if a page is lost. */
  ghost function Next(total: nat, l: Life, target: nat): Option<Life>
  {
    if target < l.sz then Some(Life(target, l.tables))
    else if target >= KERNBASE * PGSIZE then Some(l)
    else if LastForNothing(total, l.tables, Up(l.sz), Up(target)) then None
    else
      var w := Reach(total, l.tables, Up(l.sz), Up(target));
      Some(Life(if w == Up(target) then target else l.sz, More(l.tables, w)))
  }

  /** To a sequence of sizes. */
  ghost function Lives(total: nat, sizes: seq<nat>): Option<Life>
  {
    if sizes == [] then Some(Life(0, 0))
    else
      var l := Lives(total, sizes[..|sizes| - 1]);
      if l.None? then None else Next(total, l.value, sizes[|sizes| - 1])
  }

  /** With pages for the greatest of the sizes and its tables, none is lost and every size is
      had. */
  lemma {:induction false} EnoughForAll(total: nat, sizes: seq<nat>, n: nat)
    requires forall i :: 0 <= i < |sizes| ==> sizes[i] < KERNBASE * PGSIZE && Up(sizes[i]) <= n
    requires total >= n + TablesFor(n)
    ensures var l := Lives(total, sizes);
            && l.Some? && l.value.tables <= TablesFor(n)
            && l.value.sz == if sizes == [] then 0 else sizes[|sizes| - 1]
  {
    if sizes != [] {
      var m := |sizes| - 1;
      var target := sizes[m];
      EnoughForAll(total, sizes[..m], n);
      var l := Lives(total, sizes[..m]).value;
      if target >= l.sz {
        var t, a, end := l.tables, Up(l.sz), Up(target);
        assert a <= end <= n && TablesFor(end) <= TablesFor(n);
        forall v: nat | a <= v < end && v % NENTRIES == 0 && t <= v / NENTRIES ensures total != InUse(t, v) + 1 {
          InUseNext(t, v);
          InUseGrows(t, v + 1, end);
        }
        ReachIs(total, t, a, end, end);
      }
    }
  }

  /** There are tables for exactly the user pages below t * NENTRIES. */
  ghost predicate Tables(m: Mem, d: nat, t: nat)
  {
    forall v: nat :: v < KERNBASE ==> (HasTable(m, d, v) <==> Pdx(v) < t)
  }

  lemma {:induction false} CostInUse(m: Mem, d: nat, a: nat, t: nat, v: nat)
    requires Tables(m, d, t) && TablesFor(a) <= t && a <= v <= KERNBASE
    ensures a + t + Cost(m, d, a, v) == InUse(t, v)
    ensures v < KERNBASE ==> (NeedsTable(m, d, a, v) <==> v % NENTRIES == 0 && t <= v / NENTRIES)
  {
    if a < v {
      CostInUse(m, d, a, t, v - 1);
      InUseNext(t, v - 1);
    }
  }

  lemma StuckInUse(m: Mem, d: nat, a: nat, t: nat, end: nat, f: nat, total: nat)
    requires Tables(m, d, t) && TablesFor(a) <= t && a <= end <= KERNBASE && f + a + t == total
    ensures LastForNothing(total, t, a, end) <==> exists v: nat :: a <= v < end && StuckAt(m, d, a, v, f)
  {
    forall v: nat | a <= v < end
      ensures StuckAt(m, d, a, v, f) <==> v % NENTRIES == 0 && t <= v / NENTRIES && total == InUse(t, v) + 1
    {
      CostInUse(m, d, a, t, v);
    }
    if LastForNothing(total, t, a, end) {
      var v: nat :| a <= v < end && v % NENTRIES == 0 && t <= v / NENTRIES && total == InUse(t, v) + 1;
      assert StuckAt(m, d, a, v, f);
    }
  }

  /** The directory entries that exist after walking pages a up to v. */
  ghost predicate Walked(m0: Mem, m: Mem, d: nat, a: nat, v: nat)
  {
    && d in m0.dirs && d in m.dirs
    && (forall i: nat :: i < NENTRIES ==> (m.dirs[d][i].Some? <==>
      m0.dirs[d][i].Some? || (a < v && Pdx(a) <= i <= Pdx(v - 1))))
  }

  lemma TablesWalked(m0: Mem, owner0: Owners, m: Mem, owner: Owners, d: nat, a: nat, t: nat, w: nat, v: nat)
    requires Owned(m0, owner0) && Owned(m, owner) && Walked(m0, m, d, a, w) && a <= w
    requires Tables(m0, d, t) && TablesFor(a) <= t && v < KERNBASE
    ensures HasTable(m, d, v) <==> Pdx(v) < More(t, w)
  {
    var i := Pdx(v);
    assert TableOk(m0, owner0, d, i) && TableOk(m, owner, d, i);
    assert HasTable(m0, d, v) <==> i < t;
    if a < w {
      assert TablesFor(w) == Pdx(w - 1) + 1;
      assert Pdx(a) <= TablesFor(a);
    }
  }

  /** How far allocuvm got, from a towards end, with f free pages: w is the first page there was
      no memory for, if there was one, and then all but the tables is free again. */
  ghost predicate Went(m0: Mem, m: Mem, d: nat, a: nat, end: nat, f: nat, free: nat, w: nat)
  {
    && a <= w <= end && Walked(m0, m, d, a, w)
    && (if f >= Cost(m0, d, a, end) then w == end && free == f - Cost(m0, d, a, end)
        else w < end && f == Cost(m0, d, a, w) && free == w - a)
  }

  /** What allocuvm leaves when it loses no page. */
  lemma WentInUse(m0: Mem, owner0: Owners, m: Mem, owner: Owners, d: nat, a: nat, t: nat, end: nat,
                  f: nat, free: nat, w: nat, total: nat)
    requires Owned(m0, owner0) && Owned(m, owner) && Went(m0, m, d, a, end, f, free, w)
    requires Tables(m0, d, t) && TablesFor(a) <= t && end <= KERNBASE && f + a + t == total
    ensures Tables(m, d, More(t, w)) && Reach(total, t, a, end) == w
    ensures w == end <==> f >= Cost(m0, d, a, end)
    ensures free + (if w == end then end else a) + More(t, w) == total
  {
    CostInUse(m0, d, a, t, w);
    if w < end {
      InUseNext(t, w);
    }
    ReachIs(total, t, a, end, w);
    forall v: nat | v < KERNBASE
      ensures HasTable(m, d, v) <==> Pdx(v) < More(t, w)
    {
      TablesWalked(m0, owner0, m, owner, d, a, t, w, v);
    }
  }

  /** Address space d, in a memory where it is all that is new since owner0, is as l says. */
  ghost predicate Alive(m: Mem, owner: Owners, free: nat, d: nat, owner0: Owners, total: nat, l: Life)
  {
    && l.sz <= KERNBASE * PGSIZE && Contiguous(m, d, Up(l.sz)) && SpaceOnly(owner0, owner, d)
    && Tables(m, d, l.tables) && TablesFor(Up(l.sz)) <= l.tables && free + Up(l.sz) + l.tables == total
  }

  lemma NewTables(m: Mem, owner: Owners, d: nat, kmap: seq<Range>)
    requires Owned(m, owner) && KmapOk(kmap) && DirSet(m, d) == Touched(kmap)
    ensures Tables(m, d, 0)
  {
    forall v: nat | v < KERNBASE ensures !HasTable(m, d, v) {
      if HasTable(m, d, v) {
        assert Pdx(v) in DirSet(m, d);
        KernelTables(kmap, Pdx(v));
      }
    }
  }

  lemma {:induction false} LivesNoMore(total: nat, sizes: seq<nat>, i: nat)
    requires i <= |sizes| && Lives(total, sizes[..i]).None?
    ensures Lives(total, sizes).None?
    decreases |sizes|
  {
    if i < |sizes| {
      assert sizes[..|sizes| - 1][..i] == sizes[..i];
      LivesNoMore(total, sizes[..|sizes| - 1], i);
    } else {
      assert sizes[..i] == sizes;
    }
  }

  lemma ContiguousShrunk(m0: Mem, m: Mem, d: nat, n: nat, a: nat)
    requires Contiguous(m0, d, n) && a <= n <= KERNBASE
    requires forall v: nat :: Lookup(m, d, v) == if v in Scan(m0, d, a, n) then NoPte else Lookup(m0, d, v)
    ensures Contiguous(m, d, a)
  {
    ContiguousScan(m0, d, n, a, n);
  }

  /** deallocuvm of the upper part of an address space. */
  lemma Shrunk(m1: Mem, owner1: Owners, f: nat, m: Mem, owner: Owners, free: nat, d: nat, target: nat,
               m0: Mem, owner0: Owners, total: nat, l: Life)
    requires Alive(m1, owner1, f, d, owner0, total, l) && Owned(m0, owner0) && d !in owner0 && target < l.sz
    requires m.dirs == m1.dirs && m.tabs.Keys == m1.tabs.Keys
    requires var gone := Scan(m1, d, Up(target), Up(l.sz));
             && (forall v: nat :: Lookup(m, d, v) == if v in gone then NoPte else Lookup(m1, d, v))
             && owner == Without(owner1, d, gone) && free == f + |gone|
    ensures Alive(m, owner, free, d, owner0, total, Life(target, l.tables))
  {
    var gone := Scan(m1, d, Up(target), Up(l.sz));
    UpDown(target, l.sz);
    ContiguousShrunk(m1, m, d, Up(l.sz), Up(target));
    SpaceShrunk(m0, owner0, owner1, d, gone);
    ContiguousScan(m1, d, Up(l.sz), Up(target), Up(l.sz));
    assert gone == Between(Up(target), Up(l.sz));
    BetweenSize(Up(target), Up(l.sz));
    assert forall v: nat :: HasTable(m, d, v) <==> HasTable(m1, d, v);
  }

  lemma SpaceTwice(owner: Owners, owner1: Owners, owner2: Owners, d: nat)
    requires SpaceOnly(owner, owner1, d) && SpaceOnly(owner1, owner2, d)
    ensures SpaceOnly(owner, owner2, d)
  {
  }

  /** Growing, when no page was lost: memory without holes, and only d has taken pages. */
  lemma Regrown(m1: Mem, owner1: Owners, m: Mem, owner: Owners, d: nat, a: nat, end: nat, f: nat, owner0: Owners,
                leak: Option<nat>)
    requires a <= end && Contiguous(m1, d, a) && SpaceOnly(owner0, owner1, d)
    requires Grew(m1, owner1, m, owner, d, a, Reached(m1, d, a, end, f), leak)
    requires leak.Some? <==> exists v: nat :: a <= v < end && StuckAt(m1, d, a, v, f)
    ensures leak.None? ==> SpaceOnly(owner0, owner, d)
    ensures leak.None? ==> Contiguous(m, d, if Fails(m1, d, a, end, f) then a else end)
  {
    ContiguousGrown(m1, owner1, m, owner, d, a, Reached(m1, d, a, end, f), leak);
    if leak.None? {
      assert owner - {} == owner;
      SpaceTwice(owner0, owner1, owner, d);
    }
  }

  /** Page v of address space nd is a copy of page v of d. */
  ghost predicate CopiedAt(m0: Mem, d: nat, m: Mem, nd: nat, v: nat)
  {
    var e := Lookup(m0, d, v);
    e.Pte? && e.ppn in m0.bytes && Holds(m, nd, v, e.flags, m0.bytes[e.ppn])
  }

  ghost predicate Copied(m0: Mem, owner0: Owners, d: nat, m: Mem, owner: Owners, nd: nat, n: nat)
  {
    && (forall d': nat, v: nat :: d' != nd || n <= v ==> Lookup(m, d', v) == Lookup(m0, d', v))
    && (forall v: nat :: v < n ==> CopiedAt(m0, d, m, nd, v))
    && BytesKept(m0, m, owner0)
    && SpaceOnly(owner0, owner, nd)
  }

  lemma CopyStart(m: Mem, owner: Owners, d: nat, nd: nat)
    requires nd in m.dirs
    ensures Copied(m, owner, d, m, owner, nd, 0) && Walked(m, m, nd, 0, 0)
  {
  }

  ghost predicate CopyFailed(m0: Mem, owner0: Owners, m: Mem, owner: Owners, nd: nat, leak: Option<nat>)
  {
    && (forall d': nat, v: nat :: d' != nd ==> Lookup(m, d', v) == Lookup(m0, d', v))
    && SpaceOnly(owner0, owner - Lost(leak), nd)
    && (leak.Some? ==> leak.value !in owner0 && leak.value in owner && owner[leak.value].Loose?)
  }

  lemma CopySource(m0: Mem, owner0: Owners, d: nat, m: Mem, owner: Owners, nd: nat, v: nat)
    requires Owned(m0, owner0) && Copied(m0, owner0, d, m, owner, nd, v) && d != nd && v < KERNBASE
      && Lookup(m0, d, v).Pte?
    ensures Lookup(m, d, v) == Lookup(m0, d, v)
    ensures var p := Lookup(m0, d, v).ppn; p in m.bytes && p in m0.bytes && m.bytes[p] == m0.bytes[p]
  {
    assert UserOk(m0, owner0, d, v);
  }

  lemma CopiedOne(m0: Mem, owner0: Owners, d: nat, m1: Mem, owner1: Owners, m: Mem, owner: Owners, nd: nat, v: nat,
                  p: nat)
    requires Copied(m0, owner0, d, m1, owner1, nd, v) && Owned(m1, owner1) && v < KERNBASE && p !in owner1
    requires Lookup(m0, d, v).Pte? && Lookup(m0, d, v).ppn in m0.bytes
    requires m.bytes == m1.bytes[p := m0.bytes[Lookup(m0, d, v).ppn]] && SpaceOnly(owner1, owner, nd)
    requires forall d': nat, v': nat ::
      Lookup(m, d', v') == if d' == nd && v' == v then Pte(p, Lookup(m0, d, v).flags) else Lookup(m1, d', v')
    ensures Copied(m0, owner0, d, m, owner, nd, v + 1)
  {
    forall x: nat | x < v + 1 ensures CopiedAt(m0, d, m, nd, x) {
      if x < v {
        assert CopiedAt(m0, d, m1, nd, x) && UserOk(m1, owner1, nd, x);
      }
    }
    SpaceTwice(owner0, owner1, owner, nd);
  }

  lemma CopyStopped(m0: Mem, owner0: Owners, d: nat, m: Mem, owner1: Owners, owner: Owners, nd: nat, v: nat,
                    leak: Option<nat>)
    requires Copied(m0, owner0, d, m, owner1, nd, v)
    requires if leak.Some? then leak.value !in owner1 && owner == owner1[leak.value := Loose] else owner == owner1
    ensures CopyFailed(m0, owner0, m, owner, nd, leak)
  {
    assert owner - Lost(leak) == owner1;
  }

  ghost function Outside(owner: Owners, d: nat): Owners
  {
    map p | p in owner && !InSpace(owner, d, p) :: owner[p]
  }

  /** What is outside the new address space is what there was before it. */
  lemma SpaceFreed(m: Mem, owner: Owners, owner': Owners, d: nat)
    requires Owned(m, owner) && d !in owner && SpaceOnly(owner, owner', d)
    ensures Outside(owner', d) == owner
  {
    forall p: nat | p in owner ensures !InSpace(owner', d, p) {
      assert UseOk(m, owner, p) && DirOk(m, owner, d);
    }
  }

  lemma CopyUndone(m0: Mem, owner0: Owners, owner1: Owners, m1: Mem, m: Mem, owner: Owners, nd: nat, leak: Option<nat>)
    requires Owned(m0, owner0) && nd !in owner0 && nd in owner1 && SpaceOnly(owner0, owner1, nd)
    requires CopyFailed(m1, owner1, m, owner, nd, leak)
    ensures leak.None? ==> Outside(owner, nd) == owner0
    ensures leak.Some? ==> leak.value !in owner0 && Outside(owner, nd) == owner0[leak.value := Loose]
  {
    var kept := owner - Lost(leak);
    SpaceTwice(owner0, owner1, kept, nd);
    SpaceFreed(m0, owner0, kept, nd);
    forall p: nat | p in kept ensures InSpace(owner, nd, p) == InSpace(kept, nd, p) { }
    if leak.Some? {
      assert Outside(owner, nd) == Outside(kept, nd)[leak.value := Loose];
    } else {
      assert kept == owner;
    }
  }

  lemma CopyDone(m0: Mem, owner0: Owners, m1: Mem, owner1: Owners, d: nat, m: Mem, owner: Owners, nd: nat, n: nat)
    requires forall v: nat :: Lookup(m1, d, v) == Lookup(m0, d, v)
    requires m1.bytes == m0.bytes && SpaceOnly(owner0, owner1, nd) && Copied(m1, owner1, d, m, owner, nd, n)
    ensures forall v: nat :: v < n ==> CopiedAt(m0, d, m, nd, v)
    ensures SpaceOnly(owner0, owner, nd) && BytesKept(m0, m, owner0)
  {
    forall v: nat | v < n ensures CopiedAt(m0, d, m, nd, v) {
      assert CopiedAt(m1, d, m, nd, v);
    }
    SpaceTwice(owner0, owner1, owner, nd);
  }

  lemma UpOrder(oldsz: nat, newsz: nat)
    requires oldsz <= newsz < KERNBASE * PGSIZE
    ensures Up(oldsz) <= Up(newsz) <= KERNBASE
    ensures Up(newsz) == Up(oldsz) || oldsz < newsz
  {
  }

  /** How the loop of allocuvm ended. */
  ghost predicate Stopped(m: Mem, d: nat, a: nat, end: nat, f: nat, ok: bool, w: nat, leak: Option<nat>)
  {
    && (ok && leak.None? ==> w == end && f >= Cost(m, d, a, end))
    && (!ok && leak.None? ==> w < end && f == Cost(m, d, a, w))
    && (leak.Some? ==> w < end && StuckAt(m, d, a, w, f) && (ok <==> w + 1 == end))
  }

  /** The loop's outcome, from the number of free pages alone. */
  lemma StoppedExactly(m: Mem, d: nat, a: nat, end: nat, f: nat, ok: bool, w: nat, leak: Option<nat>)
    requires a <= w <= end && Stopped(m, d, a, end, f, ok, w, leak)
    ensures leak.Some? <==> exists v: nat :: a <= v < end && StuckAt(m, d, a, v, f)
    ensures ok <==> !Fails(m, d, a, end, f)
    ensures ok ==> w == Reached(m, d, a, end, f)
    ensures !ok ==> Reached(m, d, a, end, f) == a
  {
    forall v: nat | a <= v < end && StuckAt(m, d, a, v, f) ensures leak.Some? && w == v {
      assert Cost(m, d, a, v + 1) == f + 1;
      CostGrows(m, d, a, v + 1, end);
      if v < w {
        CostGrows(m, d, a, v + 1, w);
      } else {
        CostGrows(m, d, a, w, v);
        if w < v {
          CostGrows(m, d, a, w + 1, v);
        }
      }
    }
    if w < end {
      CostGrows(m, d, a, w + 1, end);
    }
  }

  /** After the pages in `gone` have been freed. */
  ghost predicate Shrinking(m0: Mem, owner0: Owners, f: nat, m: Mem, owner: Owners, free: nat, d: nat, gone: set<nat>)
  {
    && m.dirs == m0.dirs && m.tabs.Keys == m0.tabs.Keys
    && (forall d': nat, v: nat :: Lookup(m, d', v) == if d' == d && v in gone then NoPte else Lookup(m0, d', v))
    && owner == Without(owner0, d, gone) && free == f + |gone| && BytesKept(m0, m, owner)
  }

  /** Deallocuvm's scan finds exactly what the loop has mapped. */
  lemma GrownScan(m0: Mem, owner0: Owners, m: Mem, owner: Owners, d: nat, a: nat, end: nat, w: nat, leak: Option<nat>)
    requires Grew(m0, owner0, m, owner, d, a, w, leak) && a <= w <= end <= KERNBASE
    requires forall v: nat :: a <= v < end ==> Lookup(m0, d, v).NoPte?
    ensures forall v: nat :: v in Scan(m, d, a, end) <==> a <= v < w
  {
    if w > a {
      assert Holds(m, d, a, 6, Zeros());
      ScanComplete(m, d, a, end);
    } else {
      ScanSound(m, d, a, end);
    }
    forall v: nat ensures v in MappedIn(m, d, a, end) <==> a <= v < w {
      if a <= v < w {
        assert Holds(m, d, v, 6, Zeros());
      }
    }
  }

  lemma ScanSize(m0: Mem, owner0: Owners, m: Mem, owner: Owners, d: nat, a: nat, end: nat, w: nat, leak: Option<nat>)
    requires Grew(m0, owner0, m, owner, d, a, w, leak) && a <= w <= end <= KERNBASE
    requires forall v: nat :: a <= v < end ==> Lookup(m0, d, v).NoPte?
    ensures a == end ==> w == a
    ensures a < end ==> |Scan(m, d, a, end)| == w - a
  {
    GrownScan(m0, owner0, m, owner, d, a, end, w, leak);
    assert Scan(m, d, a, end) == Between(a, w);
    BetweenSize(a, w);
  }

  lemma ShrunkSpace(m0: Mem, owner0: Owners, owner1: Owners, owner: Owners, d: nat, gone: set<nat>, leak: Option<nat>)
    requires Owned(m0, owner0) && SpaceOnly(owner0, owner1 - Lost(leak), d) && owner == Without(owner1, d, gone)
    requires leak.Some? ==> leak.value !in owner0
    requires forall v :: v in gone ==> Lookup(m0, d, v).NoPte?
    ensures SpaceOnly(owner0, owner - Lost(leak), d)
    ensures forall p: nat :: p in owner0 ==> p in owner
  {
    forall p: nat | p in owner0 ensures p in owner && owner[p] == owner0[p] {
      assert UseOk(m0, owner0, p);
      assert p in owner1 - Lost(leak);
    }
    forall p: nat | p in owner - Lost(leak) && p !in owner0 ensures InSpace(owner - Lost(leak), d, p) {
      assert p in owner1 - Lost(leak);
      assert InSpace(owner1 - Lost(leak), d, p);
    }
  }

  lemma ShrinkBack(m0: Mem, owner0: Owners, m1: Mem, owner1: Owners, m: Mem, owner: Owners, d: nat, oldsz: nat,
                   newsz: nat, w: nat, leak: Option<nat>)
    requires Owned(m0, owner0) && Grew(m0, owner0, m1, owner1, d, Up(oldsz), w, leak)
    requires oldsz <= newsz < KERNBASE * PGSIZE && Up(oldsz) <= w <= Up(newsz)
    requires forall v: nat :: Up(oldsz) <= v < Up(newsz) ==> Lookup(m0, d, v).NoPte?
    requires var gone := if oldsz >= newsz then {} else Scan(m1, d, Up(oldsz), Up(newsz));
             && (forall d': nat, v: nat ::
               Lookup(m, d', v) == if d' == d && v in gone then NoPte else Lookup(m1, d', v))
             && owner == Without(owner1, d, gone)
    requires BytesKept(m1, m, owner)
    ensures Grew(m0, owner0, m, owner, d, Up(oldsz), Up(oldsz), leak)
  {
    UpOrder(oldsz, newsz);
    GrownScan(m0, owner0, m1, owner1, d, Up(oldsz), Up(newsz), w, leak);
    ShrunkSpace(m0, owner0, owner1, owner, d, if oldsz >= newsz then {} else Scan(m1, d, Up(oldsz), Up(newsz)), leak);
  }

  /** After the pages a up to v have been tried. */
  ghost predicate Growing(m0: Mem, owner0: Owners, f: nat, m: Mem, owner: Owners, free: nat, d: nat, a: nat, v: nat,
                          w: nat, leak: Option<nat>)
  {
    && Grew(m0, owner0, m, owner, d, a, w, leak)
    && (leak.None? ==> w == v && free == f - Cost(m0, d, a, v) && Walked(m0, m, d, a, v))
    && (leak.Some? ==> w + 1 == v && free == 0 && StuckAt(m0, d, a, w, f))
  }

  lemma GrowingStart(m: Mem, owner: Owners, f: nat, d: nat, a: nat)
    requires d in m.dirs
    ensures Growing(m, owner, f, m, owner, f, d, a, a, a, None)
  {
    assert owner - {} == owner;
  }

  lemma WalkedNeeds(m0: Mem, m: Mem, owner0: Owners, owner: Owners, d: nat, a: nat, v: nat)
    requires Owned(m0, owner0) && Owned(m, owner) && Walked(m0, m, d, a, v) && a <= v < NPAGES
    ensures Missing(m, d, v) == if NeedsTable(m0, d, a, v) then 1 else 0
  {
    assert TableOk(m0, owner0, d, Pdx(v)) && TableOk(m, owner, d, Pdx(v));
    assert Ptx(v) != 0 && a < v ==> Pdx(v) == Pdx(v - 1);
    assert Ptx(v) == 0 && a < v ==> Pdx(v) == Pdx(v - 1) + 1;
  }

  lemma WalkedOne(m0: Mem, m1: Mem, m: Mem, d: nat, a: nat, v: nat)
    requires Walked(m0, m1, d, a, v) && DirGrown(m1, m, d, Pdx(v)) && a <= v < NPAGES
    ensures Walked(m0, m, d, a, v + 1)
  {
    assert a < v ==> Pdx(v - 1) <= Pdx(v) <= Pdx(v - 1) + 1;
    assert Pdx(a) <= Pdx(v);
  }

  lemma LeakOne(m0: Mem, owner0: Owners, m: Mem, owner: Owners, d: nat, a: nat, w: nat, p: nat)
    requires Grew(m0, owner0, m, owner, d, a, w, None) && p !in owner
    ensures Grew(m0, owner0, m, owner[p := Loose], d, a, w, Some(p))
  {
    assert owner[p := Loose] - {p} == owner - {};
  }

  lemma GrewOne(m0: Mem, owner0: Owners, m1: Mem, owner1: Owners, m: Mem, owner: Owners, d: nat, a: nat, v: nat, p: nat)
    requires Grew(m0, owner0, m1, owner1, d, a, v, None) && Owned(m1, owner1) && a <= v < KERNBASE && p !in owner1
    requires m.bytes == m1.bytes[p := Zeros()] && SpaceOnly(owner1, owner, d)
    requires forall d': nat, v': nat ::
      Lookup(m, d', v') == if d' == d && v' == v then Pte(p, 6) else Lookup(m1, d', v')
    ensures Grew(m0, owner0, m, owner, d, a, v + 1, None)
  {
    forall x: nat | a <= x < v + 1 ensures Holds(m, d, x, 6, Zeros()) {
      if x < v {
        assert Holds(m1, d, x, 6, Zeros()) && UserOk(m1, owner1, d, x);
      }
    }
    assert owner1 - {} == owner1 && owner - {} == owner;
    SpaceTwice(owner0, owner1, owner, d);
  }

  /** What became of a page that was to be added; NoTable leaves page p allocated and unmapped. */
  datatype Added = Mapped(p: nat) | NoTable(p: nat) | NoPage

  lemma {:induction false} KmapBelow(kmap: seq<Range>, k: nat, j: nat, v: nat)
    requires KmapOk(kmap) && j <= k < |kmap| && v >= kmap[k].v
    ensures KmapAt(kmap[..j], v).NoPte?
    decreases j
  {
    if j > 0 {
      assert kmap[..j][..j - 1] == kmap[..j - 1];
      KmapBelow(kmap, k, j - 1, v);
    }
  }

  lemma KmapNext(kmap: seq<Range>, k: nat, next: nat)
    requires KmapOk(kmap) && k < |kmap| && next == k + 1
    ensures forall v: nat :: KmapAt(kmap[..next], v) == RangeAt(kmap[k], v, KmapAt(kmap[..k], v))
    ensures forall v: nat :: v >= kmap[k].v ==> KmapAt(kmap[..k], v).NoPte?
  {
    assert kmap[..next][..k] == kmap[..k];
    forall v: nat | v >= kmap[k].v ensures KmapAt(kmap[..k], v).NoPte? {
      KmapBelow(kmap, k, k, v);
    }
  }

  lemma TablesOfNew(owner: Owners, owner': Owners, d: nat)
    requires d !in owner && TablesOnly(owner[d := IsDir], owner', d)
    ensures SpaceOnly(owner, owner', d)
  {
    assert d in owner[d := IsDir];
    forall p: nat | p in owner
      ensures p in owner' && owner'[p] == owner[p]
    {
      assert p in owner[d := IsDir];
    }
  }

  lemma MappedSpace(owner: Owners, owner': Owners, d: nat, v: nat, p: nat)
    requires p !in owner && p in owner' && owner'[p] == IsUser(d, v)
      && TablesOnly(owner[p := Loose] - {p}, owner' - {p}, d)
    ensures SpaceOnly(owner, owner', d)
  {
    assert owner[p := Loose] - {p} == owner;
    forall q: nat | q in owner ensures q in owner' && owner'[q] == owner[q] {
      assert q in owner' - {p};
    }
    forall q: nat | q in owner' && q !in owner && q != p ensures owner'[q].IsTable? && owner'[q].d == d {
      assert q in owner' - {p};
    }
  }

  lemma TablesTwice(owner: Owners, owner1: Owners, owner2: Owners, d: nat)
    requires TablesOnly(owner, owner1, d) && TablesOnly(owner1, owner2, d)
    ensures TablesOnly(owner, owner2, d)
  {
  }

  lemma FullScan(m: Mem, d: nat)
    ensures Up(KERNBASE * PGSIZE) == KERNBASE && Up(0) == 0
    ensures Scan(m, d, 0, KERNBASE) == MappedIn(m, d, 0, KERNBASE)
  {
    ScanComplete(m, d, 0, KERNBASE);
  }

  /** In freevm, once the user pages and the first i tables are gone. */
  ghost function Reduced(owner: Owners, d: nat, i: nat): Owners
  {
    map p | p in owner && !(owner[p].IsUser? && owner[p].d == d)
      && !(owner[p].IsTable? && owner[p].d == d && owner[p].i < i) :: owner[p]
  }

  lemma AllUserGone(m: Mem, owner: Owners, d: nat)
    requires Owned(m, owner)
    ensures Without(owner, d, MappedIn(m, d, 0, KERNBASE)) == Reduced(owner, d, 0)
  {
    forall p: nat | p in owner && owner[p].IsUser? && owner[p].d == d
      ensures owner[p].v in MappedIn(m, d, 0, KERNBASE) {
      assert UseOk(m, owner, p);
    }
  }

  /** The state of freevm then. */
  ghost predicate Freeing(m0: Mem, owner0: Owners, m: Mem, owner: Owners, d: nat, i: nat)
  {
    && m.dirs.Keys == m0.dirs.Keys && owner == Reduced(owner0, d, i)
    && (forall j :: 0 <= j < i && j < NENTRIES && d in m.dirs ==> m.dirs[d][j].None?)
    && (forall d': nat, v: nat :: d' != d ==> Lookup(m, d', v) == Lookup(m0, d', v))
    && (forall v: nat :: v < KERNBASE ==> Lookup(m, d, v).NoPte?)
  }

  lemma ReducedNext(m: Mem, owner0: Owners, d: nat, i: nat, next: nat)
    requires d in m.dirs && i < NENTRIES && next == i + 1 && Owned(m, Reduced(owner0, d, i))
    ensures Reduced(owner0, d, next) ==
            if m.dirs[d][i].Some? then Reduced(owner0, d, i) - {m.dirs[d][i].value} else Reduced(owner0, d, i)
  {
    var o := Reduced(owner0, d, i);
    assert TableOk(m, o, d, i);
    forall p: nat | p in o && o[p] == IsTable(d, i) ensures m.dirs[d][i] == Some(p) {
      assert UseOk(m, o, p);
    }
  }

  lemma OutsideDone(m: Mem, owner: Owners, d: nat)
    requires Owned(m, owner) && d in m.dirs
    ensures Reduced(owner, d, NENTRIES) - {d} == Outside(owner, d)
  {
    forall p: nat | p in owner && owner[p].IsTable? ensures owner[p].i < NENTRIES {
      assert UseOk(m, owner, p);
    }
  }

  lemma WithoutNone(owner: Owners, d: nat)
    ensures Without(owner, d, {}) == owner
  {
  }

  lemma WithoutTwice(owner: Owners, d: nat, gone: set<nat>, v: nat)
    ensures Without(Without(owner, d, gone), d, {v}) == Without(owner, d, gone + {v})
  {
  }

  lemma WithoutOne(m: Mem, owner: Owners, d: nat, v: nat)
    requires Owned(m, owner) && v < KERNBASE && Lookup(m, d, v).Pte?
    ensures owner - {Lookup(m, d, v).ppn} == Without(owner, d, {v})
  {
    assert UserOk(m, owner, d, v);
    forall p: nat | p in owner && owner[p] == IsUser(d, v) ensures p == Lookup(m, d, v).ppn {
      assert UseOk(m, owner, p);
    }
  }

  lemma FreeSameKeys(free: seq<nat>, owner: Owners, all: set<nat>, p: nat, u: Use)
    requires FreeOk(free, owner, all) && p in owner
    ensures FreeOk(free, owner[p := u], all)
  {
  }

  lemma LooseAdded(m: Mem, owner: Owners, p: nat)
    requires Owned(m, owner) && p !in owner
    ensures Owned(m, owner[p := Loose])
  {
    var o := owner[p := Loose];
    forall d: nat ensures DirOk(m, o, d) { assert DirOk(m, owner, d); }
    forall d: nat, i: nat ensures TableOk(m, o, d, i) { assert TableOk(m, owner, d, i); }
    forall d: nat, v: nat ensures UserOk(m, o, d, v) { assert UserOk(m, owner, d, v); }
    forall q: nat ensures UseOk(m, o, q) { assert UseOk(m, owner, q); }
  }

  lemma LooseDropped(m: Mem, owner: Owners, p: nat)
    requires Owned(m, owner) && p in owner && owner[p].Loose?
    ensures Owned(m, owner - {p})
  {
    var o := owner - {p};
    forall d: nat ensures DirOk(m, o, d) { assert DirOk(m, owner, d); }
    forall d: nat, i: nat ensures TableOk(m, o, d, i) { assert TableOk(m, owner, d, i); }
    forall d: nat, v: nat ensures UserOk(m, o, d, v) { assert UserOk(m, owner, d, v); }
    forall q: nat ensures UseOk(m, o, q) { assert UseOk(m, owner, q); }
  }

  // ----- the operations -----

  class Vmm {
    const all: set<nat>       // the pages between `end` and PHYSTOP
    var free: seq<nat>        // kmem.freelist
    var mem: Mem
    ghost var owner: Owners

    ghost predicate Valid()
      reads this
    {
      Owned(mem, owner) && FreeOk(free, owner, all)
    }

    /** freerange has put every page on the list. */
    constructor (pages: seq<nat>)
      requires forall i, j :: 0 <= i < j < |pages| ==> pages[i] != pages[j]
      ensures Valid() && free == pages && owner == map[] && all == (set p | p in pages)
    {
      all := set p | p in pages;
      free := pages;
      mem := Mem(map[], map[], map[]);
      owner := map[];
    }

    /** kalloc: the page at the head of the list. */
    method Kalloc() returns (r: Option<nat>)
      requires Valid()
      modifies this`free, this`owner
      ensures Valid()
      ensures r.None? <==> old(free) == []
      ensures r.None? ==> free == old(free) && owner == old(owner)
      ensures r.Some? ==>
        r.value == old(free)[0] && r.value !in old(owner) && free == old(free)[1..]
          && owner == old(owner)[r.value := Loose]
    {
      if free == [] {
        return None;
      }
      FreeTaken(free, owner, all, Loose);
      r := Some(free[0]);
      free := free[1..];
      LooseAdded(mem, owner, r.value);
      owner := owner[r.value := Loose];
    }

    /** kfree of a page that nothing refers to. */
    method Kfree(p: nat)
      requires Valid() && p in owner && owner[p].Loose?
      modifies this`free, this`owner
      ensures Valid() && free == [p] + old(free) && owner == old(owner) - {p}
    {
      FreeGiven(free, owner, all, p);
      LooseDropped(mem, owner, p);
      free := [p] + free;
      owner := owner - {p};
    }

    /** walkpgdir with alloc set: afterwards there is a table, or there was no page for one. */
    method WalkAlloc(d: nat, v: nat) returns (ok: bool)
      requires Valid() && d in mem.dirs && v < NPAGES
      modifies this`free, this`mem, this`owner
      ensures Valid() && mem.dirs.Keys == old(mem.dirs).Keys && mem.bytes == old(mem.bytes)
      ensures ok ==> HasTable(mem, d, v)
      ensures forall d': nat, v': nat :: Lookup(mem, d', v') == Lookup(old(mem), d', v')
      ensures !ok ==> mem == old(mem) && owner == old(owner) && free == old(free) == [] && !HasTable(mem, d, v)
      ensures ok ==> TablesOnly(old(owner), owner, d)
      ensures ok ==> |free| == |old(free)| - Missing(old(mem), d, v) && DirGrown(old(mem), mem, d, Pdx(v))
    {
      assert TableOk(mem, owner, d, Pdx(v));
      if mem.dirs[d][Pdx(v)].Some? {
        return true;
      }
      var t := Kalloc();
      if t.None? {
        return false;
      }
      TableAdded(mem, owner, d, Pdx(v), t.value);
      mem := WithTable(mem, d, Pdx(v), t.value);
      FreeSameKeys(free, owner, all, t.value, IsTable(d, Pdx(v)));
      owner := owner[t.value := IsTable(d, Pdx(v))];
      return true;
    }

    /** mappages of one user page: memory p, which is loose, becomes page v of address space d. */
    method MapUser(d: nat, v: nat, p: nat, flags: nat, data: Page) returns (ok: bool)
      requires Valid() && d in mem.dirs && v < KERNBASE && Lookup(mem, d, v).NoPte?
      requires p in owner && owner[p].Loose?
      modifies this`free, this`mem, this`owner
      ensures Valid() && mem.dirs.Keys == old(mem.dirs).Keys
      ensures !ok ==> mem == old(mem) && owner == old(owner) && free == old(free) == [] && !HasTable(mem, d, v)
      ensures ok ==>
        && HasTable(mem, d, v) && mem.bytes == old(mem.bytes)[p := data]
        && (forall d': nat, v': nat ::
          Lookup(mem, d', v') == if d' == d && v' == v then Pte(p, flags) else Lookup(old(mem), d', v'))
        && p in owner && owner[p] == IsUser(d, v) && TablesOnly(old(owner) - {p}, owner - {p}, d)
        && |free| == |old(free)| - Missing(old(mem), d, v) && DirGrown(old(mem), mem, d, Pdx(v))
    {
      ok := WalkAlloc(d, v);
      if ok {
        PageMapped(mem, owner, d, v, p, flags, data);
        mem := WithPte(mem, d, v, Pte(p, flags)).(bytes := mem.bytes[p := data]);
        FreeSameKeys(free, owner, all, p, IsUser(d, v));
        owner := owner[p := IsUser(d, v)];
      }
    }

    /** One page of deallocuvm: kfree(v); *pte = 0. */
    method FreePage(d: nat, v: nat)
      requires Valid() && HasTable(mem, d, v) && v < KERNBASE && Lookup(mem, d, v).Pte?
      modifies this`free, this`mem, this`owner
      ensures Valid() && mem.dirs == old(mem.dirs) && mem.tabs.Keys == old(mem.tabs).Keys
      ensures forall d': nat, v': nat ::
        Lookup(mem, d', v') == if d' == d && v' == v then NoPte else Lookup(old(mem), d', v')
      ensures owner == Without(old(owner), d, {v}) && |free| == |old(free)| + 1
      ensures BytesKept(old(mem), mem, owner)
    {
      PageUnmapped(mem, owner, d, v);
      var p := Lookup(mem, d, v).ppn;
      FreeGiven(free, owner, all, p);
      WithoutOne(mem, owner, d, v);
      free := [p] + free;
      mem := WithPte(mem, d, v, NoPte).(bytes := mem.bytes - {p});
      owner := owner - {p};
    }

    /** One page more freed by the loop of deallocuvm. */
    method FreeNext(d: nat, v: nat, ghost m0: Mem, ghost owner0: Owners, ghost f: nat, ghost gone: set<nat>)
      returns (ghost gone': set<nat>)
      requires Valid() && HasTable(mem, d, v) && v < KERNBASE && Lookup(mem, d, v).Pte? && v !in gone
      requires Shrinking(m0, owner0, f, mem, owner, |free|, d, gone)
      modifies this`free, this`mem, this`owner
      ensures Valid() && gone' == gone + {v} && Shrinking(m0, owner0, f, mem, owner, |free|, d, gone')
    {
      FreePage(d, v);
      WithoutTwice(owner0, d, gone, v);
      gone' := gone + {v};
    }

    /** deallocuvm: exactly the pages of the scan are unmapped and freed, each once. */
    method Deallocuvm(d: nat, oldsz: nat, newsz: nat) returns (r: nat)
      requires Valid() && d in mem.dirs && oldsz <= KERNBASE * PGSIZE
      modifies this`free, this`mem, this`owner
      ensures Valid() && mem.dirs == old(mem.dirs) && mem.tabs.Keys == old(mem.tabs).Keys
      ensures r == if newsz >= oldsz then oldsz else newsz
      ensures var gone := if newsz >= oldsz then {} else Scan(old(mem), d, Up(newsz), Up(oldsz));
              && (forall d': nat, v: nat ::
                Lookup(mem, d', v) == if d' == d && v in gone then NoPte else Lookup(old(mem), d', v))
              && owner == Without(old(owner), d, gone) && |free| == |old(free)| + |gone|
      ensures BytesKept(old(mem), mem, owner)
    {
      if newsz >= oldsz {
        WithoutNone(owner, d);
        return oldsz;
      }
      ghost var m0, owner0, f := mem, owner, |free|;
      ghost var all0 := Scan(m0, d, Up(newsz), Up(oldsz));
      ghost var gone: set<nat> := {};
      var a := Up(newsz);
      WithoutNone(owner, d);
      while a < Up(oldsz)
        invariant Valid() && Shrinking(m0, owner0, f, mem, owner, |free|, d, gone)
        invariant gone + Scan(m0, d, a, Up(oldsz)) == all0
        invariant forall v :: v in gone ==> v < a
        decreases Up(oldsz) - a
      {
        ghost var a0, g0 := a, gone;
        assert HasTable(mem, d, a) <==> HasTable(m0, d, a);
        if !HasTable(mem, d, a) {
          a := a + (NENTRIES - 1);
        } else if Lookup(mem, d, a).Pte? {
          gone := FreeNext(d, a, m0, owner0, f, gone);
        }
        a := a + 1;
        ScanNext(m0, d, a0, a, Up(oldsz), g0, gone);
      }
      return newsz;
    }

    /** The kfree of one page table in freevm.  The directory entry is never read again; it is
        cleared here to say so. */
    method FreeTable(d: nat, i: nat)
      requires Valid() && d in mem.dirs && i < NENTRIES && mem.dirs[d][i].Some?
      requires forall v: nat :: v < KERNBASE ==> Lookup(mem, d, v).NoPte?
      modifies this`free, this`mem, this`owner
      ensures Valid() && mem.dirs == old(mem.dirs)[d := old(mem.dirs)[d][i := None]] && mem.bytes == old(mem.bytes)
      ensures forall d': nat, v: nat :: d' != d ==> Lookup(mem, d', v) == Lookup(old(mem), d', v)
      ensures forall v: nat :: v < KERNBASE ==> Lookup(mem, d, v).NoPte?
      ensures owner == old(owner) - {old(mem.dirs)[d][i].value}
      ensures old(mem.dirs)[d][i].value in old(owner) && old(owner)[old(mem.dirs)[d][i].value] == IsTable(d, i)
    {
      TableDropped(mem, owner, d, i);
      var t := mem.dirs[d][i].value;
      FreeGiven(free, owner, all, t);
      free := [t] + free;
      mem := mem.(dirs := mem.dirs[d := mem.dirs[d][i := None]], tabs := mem.tabs - {t});
      owner := owner - {t};
    }

    method FreeTurn(d: nat, i: nat, ghost next: nat, ghost m0: Mem, ghost owner0: Owners)
      requires Valid() && d in mem.dirs && i < NENTRIES && next == i + 1 && Freeing(m0, owner0, mem, owner, d, i)
      modifies this`free, this`mem, this`owner
      ensures Valid() && d in mem.dirs && Freeing(m0, owner0, mem, owner, d, next)
    {
      ReducedNext(mem, owner0, d, i, next);
      if mem.dirs[d][i].Some? {
        FreeTable(d, i);
      }
    }

    /** The loop of freevm. */
    method FreeTables(d: nat, ghost m0: Mem, ghost owner0: Owners)
      requires Valid() && d in mem.dirs && Freeing(m0, owner0, mem, owner, d, 0)
      modifies this`free, this`mem, this`owner
      ensures Valid() && d in mem.dirs && Freeing(m0, owner0, mem, owner, d, NENTRIES)
    {
      var i := 0;
      while i < NENTRIES
        invariant 0 <= i <= NENTRIES && Valid() && d in mem.dirs && Freeing(m0, owner0, mem, owner, d, i)
      {
        var next := i + 1;
        FreeTurn(d, i, next, m0, owner0);
        i := next;
      }
    }

    /** freevm: exactly the pages of address space d are free again; nobody else's changes. */
    method Freevm(d: nat)
      requires Valid() && d in mem.dirs
      modifies this`free, this`mem, this`owner
      ensures Valid() && mem.dirs.Keys == old(mem.dirs).Keys - {d}
      ensures forall d': nat, v: nat :: d' != d ==> Lookup(mem, d', v) == Lookup(old(mem), d', v)
      ensures owner == Outside(old(owner), d)
    {
      ghost var m0, owner0 := mem, owner;
      FullScan(m0, d);
      var sz := Deallocuvm(d, KERNBASE * PGSIZE, 0);
      ghost var owner1 := owner;
      AllUserGone(m0, owner0, d);
      FreeTables(d, m0, owner0);
      DirDropped(mem, owner, d);
      FreeGiven(free, owner, all, d);
      OutsideDone(m0, owner0, d);
      free := [d] + free;
      mem := mem.(dirs := mem.dirs - {d});
      owner := owner - {d};
    }

    /** One turn of mappages' loop, for a kernel page. */
    method MapOneKernel(d: nat, v: nat, e: Pte) returns (ok: bool)
      requires Valid() && d in mem.dirs && KERNBASE <= v < NPAGES
      modifies this`free, this`mem, this`owner
      ensures Valid() && mem.dirs.Keys == old(mem.dirs).Keys && mem.bytes == old(mem.bytes)
      ensures TablesOnly(old(owner), owner, d)
      ensures forall d': nat, v': nat ::
        Lookup(mem, d', v') == if ok && d' == d && v' == v then e else Lookup(old(mem), d', v')
      ensures |free| + |DirSet(mem, d)| == |old(free)| + |DirSet(old(mem), d)|
      ensures ok ==> DirSet(mem, d) == DirSet(old(mem), d) + {Pdx(v)}
      ensures !ok ==> free == [] && mem == old(mem) && Pdx(v) !in DirSet(mem, d)
    {
      ghost var m0, owner0 := mem, owner;
      ok := WalkAlloc(d, v);
      if ok {
        DirSetGrown(m0, owner0, mem, d, v);
        ghost var m1 := mem;
        KernelMapped(mem, owner, d, v, e);
        forall d': nat, v': nat
          ensures Lookup(WithPte(m1, d, v, e), d', v') == if d' == d && v' == v then e else Lookup(m1, d', v')
        {
          PteWritten(m1, owner, d, v, e, d', v');
        }
        mem := WithPte(mem, d, v, e);
        assert DirSet(mem, d) == DirSet(m1, d);
      } else {
        assert TableOk(mem, owner, d, Pdx(v));
      }
    }

    /** One turn of mappages' loop, with what the turns before it did. */
    method MapTurn(d: nat, r: Range, k: nat, ghost next: nat, ghost m0: Mem, ghost owner0: Owners) returns (ok: bool)
      requires Valid() && d in mem.dirs && RangeOk(r) && next == k + 1 && k < r.n
      requires RangeMapped(m0, owner0, mem, owner, d, r, k)
      modifies this`free, this`mem, this`owner
      ensures Valid() && d in mem.dirs
      ensures |free| + |DirSet(mem, d)| == |old(free)| + |DirSet(old(mem), d)|
      ensures ok ==> RangeMapped(m0, owner0, mem, owner, d, r, next)
      ensures !ok ==>
        && free == [] && mem.dirs.Keys == m0.dirs.Keys && mem.bytes == m0.bytes
        && TablesOnly(owner0, owner, d)
      ensures !ok ==> DirSet(mem, d) < DirSet(m0, d) + Dirs(r)
      ensures !ok ==> forall d': nat, v: nat :: d' != d || v < KERNBASE ==> Lookup(mem, d', v) == Lookup(m0, d', v)
    {
      ghost var owner1, m1 := owner, mem;
      var v := r.v + k;
      ok := MapOneKernel(d, v, Pte(r.ppn + k, r.flags));
      DirsNext(r, k, next, v);
      TablesTwice(owner0, owner1, owner, d);
      if ok {
        MappedNext(m0, m1, mem, d, r, k, next, v);
      } else {
        MappedNone(m0, mem, d, r, k);
      }
    }

    /** mappages of a range of kernel pages.  Each table it needs takes a free page. */
    method MapKernel(d: nat, r: Range) returns (ok: bool)
      requires Valid() && d in mem.dirs && RangeOk(r)
      requires forall v: nat :: r.v <= v < r.v + r.n ==> Lookup(mem, d, v).NoPte?
      modifies this`free, this`mem, this`owner
      ensures Valid() && mem.dirs.Keys == old(mem.dirs).Keys && mem.bytes == old(mem.bytes)
      ensures TablesOnly(old(owner), owner, d)
      ensures forall d': nat, v: nat :: d' != d || v < KERNBASE ==> Lookup(mem, d', v) == Lookup(old(mem), d', v)
      ensures ok ==> forall v: nat :: Lookup(mem, d, v) == RangeAt(r, v, Lookup(old(mem), d, v))
      ensures |free| + |DirSet(mem, d)| == |old(free)| + |DirSet(old(mem), d)|
      ensures ok ==> DirSet(mem, d) == DirSet(old(mem), d) + Dirs(r)
      ensures !ok ==> free == [] && DirSet(mem, d) < DirSet(old(mem), d) + Dirs(r)
    {
      ghost var m0, owner0, f := mem, owner, |free| + |DirSet(mem, d)|;
      var k := 0;
      while k < r.n
        invariant 0 <= k <= r.n && Valid() && d in mem.dirs && RangeMapped(m0, owner0, mem, owner, d, r, k)
        invariant |free| + |DirSet(mem, d)| == f
      {
        var next := k + 1;
        ok := MapTurn(d, r, k, next, m0, owner0);
        if !ok {
          return;
        }
        k := next;
      }
      MappedAll(m0, owner0, mem, owner, d, r);
      return true;
    }

    /** A zeroed page directory. */
    method NewDir() returns (r: Option<nat>)
      requires Valid()
      modifies this`free, this`mem, this`owner
      ensures Valid() && mem.bytes == old(mem.bytes)
      ensures r.None? <==> old(free) == []
      ensures r.None? ==> owner == old(owner) && mem == old(mem) && free == []
      ensures r.Some? ==>
        && r.value !in old(owner) && r.value !in old(mem).dirs && owner == old(owner)[r.value := IsDir]
        && |free| == |old(free)| - 1 && mem.dirs.Keys == old(mem).dirs.Keys + {r.value} && DirSet(mem, r.value) == {}
      ensures forall d': nat, v: nat :: Lookup(mem, d', v) == Lookup(old(mem), d', v)
      ensures r.Some? ==> forall v: nat :: Lookup(mem, r.value, v).NoPte?
    {
      r := Kalloc();
      if r.None? {
        return;
      }
      var d := r.value;
      DirAdded(mem, owner, d);
      FreeSameKeys(free, owner, all, d, IsDir);
      mem := mem.(dirs := mem.dirs[d := ZeroDir()]);
      owner := owner[d := IsDir];
      assert DirSet(mem, d) == {};
    }

    /** The loop of setupkvm. */
    method MapKmap(d: nat, kmap: seq<Range>) returns (ok: bool)
      requires Valid() && KmapOk(kmap) && d in mem.dirs && DirSet(mem, d) == {}
      requires forall v: nat :: Lookup(mem, d, v).NoPte?
      modifies this`free, this`mem, this`owner
      ensures Valid() && mem.bytes == old(mem.bytes) && mem.dirs.Keys == old(mem.dirs).Keys
      ensures TablesOnly(old(owner), owner, d)
      ensures forall d': nat, v: nat :: d' != d ==> Lookup(mem, d', v) == Lookup(old(mem), d', v)
      ensures |free| + |DirSet(mem, d)| == |old(free)|
      ensures ok ==> DirSet(mem, d) == Touched(kmap) && forall v: nat :: Lookup(mem, d, v) == KmapAt(kmap, v)
      ensures !ok ==> free == [] && DirSet(mem, d) < Touched(kmap)
    {
      ghost var m0, owner0, f := mem, owner, |free|;
      var k := 0;
      assert kmap[..0] == [];
      while k < |kmap|
        invariant 0 <= k <= |kmap| && Valid() && mem.dirs.Keys == m0.dirs.Keys && mem.bytes == m0.bytes
        invariant TablesOnly(owner0, owner, d)
        invariant forall d': nat, v: nat :: d' != d ==> Lookup(mem, d', v) == Lookup(m0, d', v)
        invariant forall v: nat :: Lookup(mem, d, v) == KmapAt(kmap[..k], v)
        invariant |free| + |DirSet(mem, d)| == f && DirSet(mem, d) == Touched(kmap[..k])
      {
        var next := k + 1;
        KmapNext(kmap, k, next);
        TouchedNext(kmap, k, next);
        ghost var owner1 := owner;
        ok := MapKernel(d, kmap[k]);
        TablesTwice(owner0, owner1, owner, d);
        if !ok {
          return;
        }
        k := next;
      }
      assert kmap[..k] == kmap;
      return true;
    }

    /** setupkvm: a new address space with the kernel's mappings and no user page.  It succeeds
        exactly when the free pages cover the directory and the tables; if they do not, all of
        them are lost. */
    method Setupkvm(kmap: seq<Range>) returns (r: Option<nat>)
      requires Valid() && KmapOk(kmap)
      modifies this`free, this`mem, this`owner
      ensures Valid() && mem.bytes == old(mem.bytes)
      ensures r.Some? <==> |old(free)| >= SetupCost(kmap)
      ensures forall d': nat, v: nat :: d' in old(mem.dirs) ==> Lookup(mem, d', v) == Lookup(old(mem), d', v)
      ensures r.None? ==> free == [] && forall p: nat :: p in old(owner) ==> p in owner && owner[p] == old(owner)[p]
      ensures old(free) == [] ==> owner == old(owner)
      ensures r.Some? ==>
        && r.value !in old(owner) && mem.dirs.Keys == old(mem.dirs).Keys + {r.value}
        && SpaceOnly(old(owner), owner, r.value)
        && |free| == |old(free)| - SetupCost(kmap) && DirSet(mem, r.value) == Touched(kmap)
        && forall v: nat :: Lookup(mem, r.value, v) == KmapAt(kmap, v)
    {
      var d := NewDir();
      if d.None? {
        return None;
      }
      var ok := MapKmap(d.value, kmap);
      TablesOfNew(old(owner), owner, d.value);
      if !ok {
        SmallerSet(DirSet(mem, d.value), Touched(kmap));
        return None;
      }
      return d;
    }

    /** A fresh page filled with `data` and mapped as page v: the kalloc and mappages of
        allocuvm and copyuvm. */
    method AddPage(d: nat, v: nat, flags: nat, data: Page) returns (r: Added)
      requires Valid() && d in mem.dirs && v < KERNBASE && Lookup(mem, d, v).NoPte?
      modifies this`free, this`mem, this`owner
      ensures Valid() && mem.dirs.Keys == old(mem.dirs).Keys
      ensures r.NoPage? <==> old(free) == []
      ensures r.NoPage? ==> mem == old(mem) && owner == old(owner) && free == old(free)
      ensures r.NoTable? <==> |old(free)| == 1 && Missing(old(mem), d, v) == 1
      ensures r.NoTable? ==> mem == old(mem) && free == [] && r.p !in old(owner) && owner == old(owner)[r.p := Loose]
      ensures r.Mapped? ==>
        && r.p !in old(owner) && mem.bytes == old(mem.bytes)[r.p := data]
        && (forall d': nat, v': nat ::
          Lookup(mem, d', v') == if d' == d && v' == v then Pte(r.p, flags) else Lookup(old(mem), d', v'))
        && SpaceOnly(old(owner), owner, d)
        && |free| == |old(free)| - 1 - Missing(old(mem), d, v) && DirGrown(old(mem), mem, d, Pdx(v))
    {
      var page := Kalloc();
      if page.None? {
        return NoPage;
      }
      var p := page.value;
      var ok := MapUser(d, v, p, flags, data);
      if !ok {
        return NoTable(p);
      }
      MappedSpace(old(owner), owner, d, v, p);
      return Mapped(p);
    }

    /** One turn of allocuvm's loop, for page v; false if there is no page left. */
    method GrowOne(d: nat, a: nat, v: nat, ghost next: nat, ghost m0: Mem, ghost owner0: Owners, ghost f: nat,
                   ghost w: nat, leak: Option<nat>)
      returns (ok: bool, ghost w': nat, leak': Option<nat>)
      requires Valid() && Owned(m0, owner0) && a <= w <= v < KERNBASE && next == v + 1 && d in mem.dirs
        && Lookup(m0, d, v).NoPte?
      requires Growing(m0, owner0, f, mem, owner, |free|, d, a, v, w, leak)
      modifies this`free, this`mem, this`owner
      ensures Valid() && mem.dirs.Keys == old(mem.dirs).Keys
      ensures !ok ==> mem == old(mem) && owner == old(owner) && free == old(free) == [] && w' == w && leak' == leak
      ensures ok ==> a <= w' <= next && Growing(m0, owner0, f, mem, owner, |free|, d, a, next, w', leak')
    {
      w', leak' := w, leak;
      ghost var m1, owner1 := mem, owner;
      if leak.None? {
        WalkedNeeds(m0, mem, owner0, owner, d, a, v);
      }
      var r := AddPage(d, v, 6, Zeros());
      ok := !r.NoPage?;
      if r.NoTable? {
        LeakOne(m0, owner0, mem, owner1, d, a, w, r.p);
        leak' := Some(r.p);
      } else if r.Mapped? {
        GrewOne(m0, owner0, m1, owner1, mem, owner, d, a, v, r.p);
        WalkedOne(m0, m1, mem, d, a, v);
        w' := v + 1;
      }
    }

    /** The loop of allocuvm.  A page that could not be mapped is leaked and skipped. */
    method Grow(d: nat, a: nat, end: nat) returns (ok: bool, ghost w: nat, leak: Option<nat>)
      requires Valid() && d in mem.dirs && a <= end <= KERNBASE
      requires forall v: nat :: a <= v < end ==> Lookup(mem, d, v).NoPte?
      modifies this`free, this`mem, this`owner
      ensures Valid() && mem.dirs.Keys == old(mem.dirs).Keys && a <= w <= end
      ensures Grew(old(mem), old(owner), mem, owner, d, a, w, leak)
      ensures Stopped(old(mem), d, a, end, |old(free)|, ok, w, leak)
      ensures leak.None? ==> |free| == |old(free)| - Cost(old(mem), d, a, w) && Walked(old(mem), mem, d, a, w)
    {
      ghost var m0, owner0, f := mem, owner, |free|;
      var v := a;
      w, leak := a, None;
      GrowingStart(m0, owner0, f, d, a);
      while v < end
        invariant a <= w <= v <= end && Valid() && mem.dirs.Keys == m0.dirs.Keys
        invariant Growing(m0, owner0, f, mem, owner, |free|, d, a, v, w, leak)
      {
        var next := v + 1;
        ok, w, leak := GrowOne(d, a, v, next, m0, owner0, f, w, leak);
        if !ok {
          return;
        }
        v := next;
      }
      ok := true;
    }

    /** allocuvm's way out when there is no page left. */
    method Undo(d: nat, oldsz: nat, newsz: nat, ghost m0: Mem, ghost owner0: Owners, ghost w: nat,
                ghost leak: Option<nat>)
      requires Valid() && d in mem.dirs && oldsz <= newsz < KERNBASE * PGSIZE && Up(oldsz) <= w <= Up(newsz)
      requires Owned(m0, owner0) && Grew(m0, owner0, mem, owner, d, Up(oldsz), w, leak)
      requires forall v: nat :: Up(oldsz) <= v < Up(newsz) ==> Lookup(m0, d, v).NoPte?
      modifies this`free, this`mem, this`owner
      ensures Valid() && mem.dirs == old(mem.dirs)
      ensures Grew(m0, owner0, mem, owner, d, Up(oldsz), Up(oldsz), leak)
      ensures |free| == |old(free)| + (w - Up(oldsz))
    {
      UpOrder(oldsz, newsz);
      ghost var m1, owner1 := mem, owner;
      var back := Deallocuvm(d, newsz, oldsz);
      ShrinkBack(m0, owner0, m1, owner1, mem, owner, d, oldsz, newsz, w, leak);
      ScanSize(m0, owner0, m1, owner1, d, Up(oldsz), Up(newsz), w, leak);
    }

    /** allocuvm.  It reports success and every page is there exactly when the free pages cover
        the pages and their tables.  If they do not, it fails and nothing is mapped - except when
        it is the last page that finds no table: then it reports success with that page missing.
        Whenever a table is what is lacking, one page is lost; `leak` says which, though the
        program does not know. */
    method Allocuvm(d: nat, oldsz: nat, newsz: nat) returns (r: nat, leak: Option<nat>, ghost w: nat)
      requires Valid() && d in mem.dirs
      requires oldsz <= newsz < KERNBASE * PGSIZE ==> forall v: nat :: Up(oldsz) <= v < Up(newsz) ==>
        Lookup(mem, d, v).NoPte?
      modifies this`free, this`mem, this`owner
      ensures Valid() && mem.dirs.Keys == old(mem.dirs).Keys
      ensures newsz >= KERNBASE * PGSIZE || newsz < oldsz ==>
        r == (if newsz >= KERNBASE * PGSIZE then 0 else oldsz) && mem == old(mem) && free == old(free)
          && owner == old(owner) && leak.None?
      ensures oldsz <= newsz < KERNBASE * PGSIZE ==>
        && Grew(old(mem), old(owner), mem, owner, d, Up(oldsz),
          Reached(old(mem), d, Up(oldsz), Up(newsz), |old(free)|), leak)
        && r == (if Fails(old(mem), d, Up(oldsz), Up(newsz), |old(free)|) then 0 else newsz)
        && (leak.Some? <==> exists v: nat ::
          && Up(oldsz) <= v < Up(newsz)
          && StuckAt(old(mem), d, Up(oldsz), v, |old(free)|))
      ensures oldsz <= newsz < KERNBASE * PGSIZE && leak.None? ==>
        Went(old(mem), mem, d, Up(oldsz), Up(newsz), |old(free)|, |free|, w)
    {
      leak, w := None, Up(oldsz);
      if newsz >= KERNBASE * PGSIZE {
        return 0, None, w;
      }
      if newsz < oldsz {
        return oldsz, None, w;
      }
      ghost var m0, owner0, f := mem, owner, |free|;
      UpOrder(oldsz, newsz);
      var ok;
      ok, w, leak := Grow(d, Up(oldsz), Up(newsz));
      StoppedExactly(m0, d, Up(oldsz), Up(newsz), f, ok, w, leak);
      if !ok {
        Undo(d, oldsz, newsz, m0, owner0, w, leak);
        return 0, leak, w;
      }
      return newsz, leak, w;
    }

    /** One turn of copyuvm's loop. */
    method CopyPage(d: nat, nd: nat, v: nat, ghost next: nat, ghost m0: Mem, ghost owner0: Owners, ghost f: nat)
      returns (r: Added)
      requires Valid() && d in mem.dirs && nd in mem.dirs && d != nd && v < KERNBASE && next == v + 1
      requires Owned(m0, owner0) && Lookup(m0, d, v).Pte? && Lookup(m0, nd, v).NoPte?
      requires Copied(m0, owner0, d, mem, owner, nd, v)
      requires |free| == f - Cost(m0, nd, 0, v) && Walked(m0, mem, nd, 0, v)
      modifies this`free, this`mem, this`owner
      ensures Valid() && mem.dirs.Keys == old(mem.dirs).Keys
      ensures r.NoPage? ==> f == Cost(m0, nd, 0, v)
      ensures r.NoTable? ==> StuckAt(m0, nd, 0, v, f)
      ensures !r.Mapped? ==> CopyFailed(m0, owner0, mem, owner, nd, if r.NoTable? then Some(r.p) else None)
      ensures r.Mapped? ==> Copied(m0, owner0, d, mem, owner, nd, next)
      ensures r.Mapped? ==> |free| == f - Cost(m0, nd, 0, next) && Walked(m0, mem, nd, 0, next)
    {
      ghost var m1, owner1 := mem, owner;
      CopySource(m0, owner0, d, mem, owner, nd, v);
      WalkedNeeds(m0, mem, owner0, owner, nd, 0, v);
      var e := Lookup(mem, d, v);
      r := AddPage(nd, v, e.flags, mem.bytes[e.ppn]);
      if r.Mapped? {
        CopiedOne(m0, owner0, d, m1, owner1, mem, owner, nd, v, r.p);
        WalkedOne(m0, m1, mem, nd, 0, v);
      } else {
        CopyStopped(m0, owner0, d, m1, owner1, owner, nd, v, if r.NoTable? then Some(r.p) else None);
      }
    }

    /** The loop of copyuvm: pages 0 up to n of d are copied to nd. */
    method CopyPages(d: nat, nd: nat, n: nat) returns (ok: bool, ghost w: nat, ghost leak: Option<nat>)
      requires Valid() && d in mem.dirs && nd in mem.dirs && d != nd && n <= KERNBASE
      requires forall v: nat :: v < n ==> Lookup(mem, d, v).Pte? && Lookup(mem, nd, v).NoPte?
      modifies this`free, this`mem, this`owner
      ensures Valid() && mem.dirs.Keys == old(mem.dirs).Keys && w <= n
      ensures ok ==> leak.None? && Copied(old(mem), old(owner), d, mem, owner, nd, n)
      ensures !ok ==> CopyFailed(old(mem), old(owner), mem, owner, nd, leak)
      ensures CopyStop(old(mem), nd, n, |old(free)|, ok, w, leak)
    {
      ghost var m0, owner0, f := mem, owner, |free|;
      var v := 0;
      leak, w := None, 0;
      CopyStart(m0, owner0, d, nd);
      while v < n
        invariant 0 <= v <= n && Valid() && mem.dirs.Keys == m0.dirs.Keys
        invariant Copied(m0, owner0, d, mem, owner, nd, v)
        invariant |free| == f - Cost(m0, nd, 0, v) && Walked(m0, mem, nd, 0, v)
      {
        var next := v + 1;
        var r := CopyPage(d, nd, v, next, m0, owner0, f);
        if !r.Mapped? {
          ok, w, leak := false, v, if r.NoTable? then Some(r.p) else None;
          return;
        }
        v := next;
      }
      ok, w := true, n;
    }

    /** copyuvm once the kernel's part is there. */
    method CopyUser(d: nat, nd: nat, n: nat, ghost m0: Mem, ghost owner0: Owners)
      returns (ok: bool, ghost leak: Option<nat>)
      requires Valid() && d in m0.dirs && d in mem.dirs && nd in mem.dirs && n <= KERNBASE && nd !in m0.dirs
      requires Owned(m0, owner0) && nd !in owner0 && nd in owner && SpaceOnly(owner0, owner, nd)
        && mem.bytes == m0.bytes
      requires forall d': nat, v: nat :: d' in m0.dirs ==> Lookup(mem, d', v) == Lookup(m0, d', v)
      requires forall v: nat :: v < n ==> Lookup(m0, d, v).Pte? && Lookup(mem, nd, v).NoPte?
      modifies this`free, this`mem, this`owner
      ensures Valid()
      ensures ok <==> |old(free)| >= Cost(old(mem), nd, 0, n)
      ensures leak.Some? <==> exists v: nat :: v < n && StuckAt(old(mem), nd, 0, v, |old(free)|)
      ensures forall d': nat, v: nat :: d' in m0.dirs ==> Lookup(mem, d', v) == Lookup(m0, d', v)
      ensures ok ==>
        && leak.None? && nd in mem.dirs && SpaceOnly(owner0, owner, nd) && BytesKept(m0, mem, owner0)
        && (forall v: nat :: v < n ==> CopiedAt(m0, d, mem, nd, v))
        && (forall v: nat :: v >= n ==> Lookup(mem, nd, v) == Lookup(old(mem), nd, v))
      ensures !ok && leak.None? ==> owner == owner0
      ensures leak.Some? ==> leak.value !in owner0 && owner == owner0[leak.value := Loose]
    {
      ghost var m1, owner1, f1 := mem, owner, |free|;
      ghost var w;
      ok, w, leak := CopyPages(d, nd, n);
      CopyExactly(m1, nd, n, f1, ok, w, leak);
      if ok {
        CopyDone(m0, owner0, m1, owner1, d, mem, owner, nd, n);
      } else {
        CopyUndone(m0, owner0, owner1, m1, mem, owner, nd, leak);
        Freevm(nd);
      }
    }

    /** copyuvm.  Told from the free pages before the call: it succeeds exactly when they cover the
        kernel's part and all pages with their tables; then the new address space has the same
        memory with the same flags, in pages of its own.  If they do not cover the kernel's part
        all free pages are lost.  Else everything is free again, but for one page exactly when
        a table is what they do not cover. */
    method Copyuvm(d: nat, sz: nat, kmap: seq<Range>) returns (r: Option<nat>, ghost leak: Option<nat>)
      requires Valid() && d in mem.dirs && KmapOk(kmap) && sz <= KERNBASE * PGSIZE
      requires forall v: nat :: v < Up(sz) ==> Lookup(mem, d, v).Pte?
      modifies this`free, this`mem, this`owner
      ensures Valid()
      ensures r.Some? <==> |old(free)| >= CopyCost(kmap, Up(sz))
      ensures leak.Some? <==> CopyLoses(kmap, Up(sz), |old(free)|)
      ensures forall d': nat, v: nat :: d' in old(mem.dirs) ==> Lookup(mem, d', v) == Lookup(old(mem), d', v)
      ensures r.Some? ==>
        && r.value !in old(owner) && r.value in mem.dirs
        && SpaceOnly(old(owner), owner, r.value) && BytesKept(old(mem), mem, old(owner))
        && (forall v: nat :: v < Up(sz) ==> CopiedAt(old(mem), d, mem, r.value, v))
        && (forall v: nat :: v >= Up(sz) ==> Lookup(mem, r.value, v) == KmapAt(kmap, v))
      ensures r.None? && |old(free)| >= SetupCost(kmap) && leak.None? ==>
        owner == old(owner) && multiset(free) == multiset(old(free))
      ensures leak.Some? ==> leak.value !in old(owner) && owner == old(owner)[leak.value := Loose]
      ensures |old(free)| < SetupCost(kmap) ==>
        free == [] && forall p: nat :: p in old(owner) ==> p in owner && owner[p] == old(owner)[p]
    {
      leak := None;
      ghost var m0, owner0, free0 := mem, owner, free;
      var nd := Setupkvm(kmap);
      if nd.None? {
        return None, leak;
      }
      assert DirOk(m0, owner0, d) && DirOk(m0, owner0, nd.value) && DirOk(mem, owner, nd.value);
      NewSpace(mem, owner, nd.value, kmap, Up(sz), |free|);
      ghost var m1, f1 := mem, |free|;
      var ok;
      ok, leak := CopyUser(d, nd.value, Up(sz), m0, owner0);
      CopyLosesHere(m1, nd.value, kmap, Up(sz), |free0|, f1);
      if !ok {
        if leak.None? {
          FreeDetermined(free, free0, owner, all);
        }
        return None, leak;
      }
      return nd, leak;
    }

    // ----- whole lives of address spaces -----

    method Enlarge(d: nat, sz: nat, target: nat, ghost owner0: Owners, ghost total: nat, ghost l: Life)
      returns (sz': nat, lost: bool, ghost l': Life)
      requires Valid() && d in mem.dirs && sz <= target < KERNBASE * PGSIZE
      requires Alive(mem, owner, |free|, d, owner0, total, l) && l.sz == sz
      modifies this`free, this`mem, this`owner
      ensures Valid() && d in mem.dirs
      ensures forall d': nat, v: nat :: d' != d ==> Lookup(mem, d', v) == Lookup(old(mem), d', v)
      ensures Next(total, l, target) == if lost then None else Some(l')
      ensures !lost ==> l'.sz == sz' && Alive(mem, owner, |free|, d, owner0, total, l')
    {
      ghost var m1, owner1, f := mem, owner, |free|;
      UpRoom(sz, target);
      var r, leak;
      ghost var w;
      r, leak, w := Allocuvm(d, sz, target);
      lost := leak.Some?;
      sz' := if r == 0 && target != 0 then sz else target;
      StuckInUse(m1, d, Up(sz), l.tables, Up(target), f, total);
      l' := Life(sz', More(l.tables, w));
      if !lost {
        Regrown(m1, owner1, mem, owner, d, Up(sz), Up(target), f, owner0, leak);
        WentInUse(m1, owner1, mem, owner, d, Up(sz), l.tables, Up(target), f, |free|, w, total);
      }
    }

    /** deallocuvm to a lower size, allocuvm to any other; if allocuvm fails the size stays. */
    method Resize(d: nat, sz: nat, target: nat, ghost m0: Mem, ghost owner0: Owners, ghost total: nat, ghost l: Life)
      returns (sz': nat, lost: bool, ghost l': Life)
      requires Valid() && d in mem.dirs && Owned(m0, owner0) && d !in owner0 && d !in m0.dirs
      requires Alive(mem, owner, |free|, d, owner0, total, l) && l.sz == sz
      modifies this`free, this`mem, this`owner
      ensures Valid() && d in mem.dirs
      ensures forall d': nat, v: nat :: d' != d ==> Lookup(mem, d', v) == Lookup(old(mem), d', v)
      ensures Next(total, l, target) == if lost then None else Some(l')
      ensures !lost ==> l'.sz == sz' && Alive(mem, owner, |free|, d, owner0, total, l')
    {
      l' := l;
      if target >= sz {
        if target >= KERNBASE * PGSIZE {
          var r, leak, w := Allocuvm(d, sz, target);
          return sz, false, l;
        }
        sz', lost, l' := Enlarge(d, sz, target, owner0, total, l);
      } else {
        ghost var m1, owner1, f := mem, owner, |free|;
        sz' := Deallocuvm(d, sz, target);
        lost, l' := false, Life(target, l.tables);
        Shrunk(m1, owner1, f, mem, owner, |free|, d, target, m0, owner0, total, l);
      }
    }

    /** The sizes in turn, until a page is lost. */
    method Resizes(d: nat, sizes: seq<nat>, ghost m0: Mem, ghost owner0: Owners, ghost total: nat)
      returns (lost: bool, sz: nat)
      requires Valid() && d in mem.dirs && Owned(m0, owner0) && d !in owner0 && d !in m0.dirs && |free| == total
      requires Alive(mem, owner, |free|, d, owner0, total, Life(0, 0))
      modifies this`free, this`mem, this`owner
      ensures Valid() && d in mem.dirs
      ensures lost <==> Lives(total, sizes).None?
      ensures !lost ==> SpaceOnly(owner0, owner, d) && Lives(total, sizes).value.sz == sz
      ensures forall d': nat, v: nat :: d' != d ==> Lookup(mem, d', v) == Lookup(old(mem), d', v)
    {
      ghost var l := Life(0, 0);
      sz, lost := 0, false;
      var i := 0;
      assert sizes[..0] == [];
      while i < |sizes|
        invariant 0 <= i <= |sizes| && Valid() && d in mem.dirs && l.sz == sz
        invariant Alive(mem, owner, |free|, d, owner0, total, l) && Lives(total, sizes[..i]) == Some(l)
        invariant forall d': nat, v: nat :: d' != d ==> Lookup(mem, d', v) == Lookup(old(mem), d', v)
      {
        var next := i + 1;
        assert sizes[..next][..i] == sizes[..i];
        sz, lost, l := Resize(d, sz, sizes[i], m0, owner0, total, l);
        if lost {
          LivesNoMore(total, sizes, next);
          return;
        }
        i := next;
      }
      assert sizes[..i] == sizes;
    }

    /** An address space is set up, resized any number of times by allocuvm and deallocuvm, and
        freed.
        Whether a page is lost on the way, and what its size is at the end, can be told from the
        number of free pages and the sizes alone; if none is lost the free pages are what they
        were. */
    method Lifetime(kmap: seq<Range>, sizes: seq<nat>) returns (ok: bool, lost: bool, sz: nat)
      requires Valid() && KmapOk(kmap)
      modifies this`free, this`mem, this`owner
      ensures Valid() && (ok <==> |old(free)| >= SetupCost(kmap))
      ensures ok ==>
        var l := Lives(|old(free)| - SetupCost(kmap), sizes);
        (lost <==> l.None?) && (l.Some? ==> sz == l.value.sz)
      ensures ok && !lost ==> owner == old(owner) && multiset(free) == multiset(old(free))
      ensures forall d': nat, v: nat :: d' in old(mem.dirs) ==> Lookup(mem, d', v) == Lookup(old(mem), d', v)
    {
      ghost var m0, owner0, free0 := mem, owner, free;
      var d := Setupkvm(kmap);
      if d.None? {
        return false, false, 0;
      }
      assert DirOk(m0, owner0, d.value);
      NewSpace(mem, owner, d.value, kmap, 0, |free|);
      NewTables(mem, owner, d.value, kmap);
      lost, sz := Resizes(d.value, sizes, m0, owner0, |free|);
      ghost var owner1 := owner;
      Freevm(d.value);
      if !lost {
        SpaceFreed(m0, owner0, owner1, d.value);
        FreeDetermined(free, free0, owner, all);
      }
      return true, lost, sz;
    }

    /** allocuvm on memory without holes. */
    method MoreMemory(d: nat, sz: nat, target: nat) returns (r: nat, leak: Option<nat>)
      requires Valid() && d in mem.dirs && sz < target && sz <= KERNBASE * PGSIZE && Contiguous(mem, d, Up(sz))
      modifies this`free, this`mem, this`owner
      ensures Valid() && d in mem.dirs
      ensures forall d': nat, v: nat :: d' != d ==> Lookup(mem, d', v) == Lookup(old(mem), d', v)
      ensures r == if target < KERNBASE * PGSIZE && !Fails(old(mem), d, Up(sz), Up(target), |old(free)|)
                   then target else 0
      ensures leak.Some? <==> target < KERNBASE * PGSIZE && Starves(old(mem), d, Up(sz), Up(target), |old(free)|)
      ensures Contiguous(mem, d, Up(if r == 0 then sz else r)) <==> !LastMissing(old(mem), d, sz, target, |old(free)|)
    {
      ghost var m1, owner1, f := mem, owner, |free|;
      ghost var w;
      UpRoom(sz, target);
      r, leak, w := Allocuvm(d, sz, target);
      if target < KERNBASE * PGSIZE {
        UpOrder(sz, target);
        AllButLast(m1, owner1, mem, owner, d, Up(sz), Up(target), f, leak);
      }
    }

    /** deallocuvm on memory without holes. */
    method LessMemory(d: nat, sz: nat, target: nat) returns (r: nat)
      requires Valid() && d in mem.dirs && sz <= KERNBASE * PGSIZE && Contiguous(mem, d, Up(sz))
      modifies this`free, this`mem, this`owner
      ensures Valid() && d in mem.dirs
      ensures forall d': nat, v: nat :: d' != d ==> Lookup(mem, d', v) == Lookup(old(mem), d', v)
      ensures r == (if target < sz then target else sz) && Contiguous(mem, d, Up(r))
      ensures r == 0 && sz > 0 ==> !Contiguous(mem, d, Up(sz))
    {
      ghost var m1 := mem;
      r := Deallocuvm(d, sz, target);
      if target < sz {
        UpDown(target, sz);
        ContiguousShrunk(m1, mem, d, Up(sz), Up(target));
        if target == 0 {
          NotUpTo(mem, d, sz);
        }
      }
    }

    /** growproc of n bytes; false is its -1.  "Afterwards memory is mapped exactly up to the size"
        fails in exactly two cases.  When all of a process's memory is given up, deallocuvm
        returns 0, which is taken for failure, and the size stays what it was.  When the last page
        of a growth finds no table, allocuvm reports success without it. */
    method Growproc(d: nat, sz: nat, n: int) returns (ok: bool, sz': nat, leak: Option<nat>)
      requires Valid() && d in mem.dirs && sz <= KERNBASE * PGSIZE && Contiguous(mem, d, Up(sz))
      requires -0x8000_0000 <= n < 0x8000_0000
      modifies this`free, this`mem, this`owner
      ensures Valid() && d in mem.dirs
      ensures forall d': nat, v: nat :: d' != d ==> Lookup(mem, d', v) == Lookup(old(mem), d', v)
      ensures ok <==>
        if n > 0 then sz + n < KERNBASE * PGSIZE && !Fails(old(mem), d, Up(sz), Up(sz + n), |old(free)|)
        else n == 0 || (sz != 0 && sz + n != 0)
      ensures sz' == if ok && sz + n >= 0 then sz + n else sz
      ensures leak.Some? <==>
        n > 0 && sz + n < KERNBASE * PGSIZE && Starves(old(mem), d, Up(sz), Up(sz + n), |old(free)|)
      ensures Contiguous(mem, d, Up(sz')) <==>
        (n >= 0 || sz + n != 0) && !(n > 0 && LastMissing(old(mem), d, sz, sz + n, |old(free)|))
    {
      leak, sz' := None, sz;
      var target: nat := (sz + n) % 0x1_0000_0000;
      var r := sz;
      if n > 0 {
        r, leak := MoreMemory(d, sz, target);
      } else if n < 0 {
        r := LessMemory(d, sz, target);
      }
      if n != 0 && r == 0 {
        return false, sz, leak;
      }
      return true, r, leak;
    }

    /** fork and exit: a copy that is freed leaves the free pages as they were, as does a copy that
        fails, unless pages are lost. */
    method CopyThenFree(d: nat, sz: nat, kmap: seq<Range>) returns (copied: bool, ghost child: nat, ghost between: Mem)
      requires Valid() && d in mem.dirs && KmapOk(kmap) && sz <= KERNBASE * PGSIZE
      requires forall v: nat :: v < Up(sz) ==> Lookup(mem, d, v).Pte?
      modifies this`free, this`mem, this`owner
      ensures Valid()
      ensures copied <==> |old(free)| >= CopyCost(kmap, Up(sz))
      ensures copied ==> child !in old(owner)
      ensures copied ==> forall v: nat :: v < Up(sz) ==> CopiedAt(old(mem), d, between, child, v)
      ensures |old(free)| >= SetupCost(kmap) && !CopyLoses(kmap, Up(sz), |old(free)|) ==>
        owner == old(owner) && multiset(free) == multiset(old(free))
    {
      ghost var m0, owner0, free0 := mem, owner, free;
      ghost var leak;
      var r;
      r, leak := Copyuvm(d, sz, kmap);
      copied, child, between := r.Some?, if r.Some? then r.value else 0, mem;
      LosesOrNot(kmap, Up(sz), |free0|);
      if r.Some? {
        ghost var owner1 := owner;
        Freevm(r.value);
        SpaceFreed(m0, owner0, owner1, r.value);
        FreeDetermined(free, free0, owner, all);
      }
    }
  }

  /** An address space without any mapping; its directory has taken one page. */
  method EmptySpace(pages: seq<nat>) returns (vm: Vmm, d: nat)
    requires pages != [] && forall i, j :: 0 <= i < j < |pages| ==> pages[i] != pages[j]
    ensures fresh(vm) && vm.Valid() && d in vm.mem.dirs && |vm.free| == |pages| - 1
    ensures Contiguous(vm.mem, d, 0) && Tables(vm.mem, d, 0)
  {
    vm := new Vmm(pages);
    var r := vm.Setupkvm([]);
    d := r.value;
    NewTables(vm.mem, vm.owner, d, []);
  }

  /** A process grows by one byte and gives it up again: the second growproc fails, the size stays
      1, and nothing is mapped. */
  method GivesUpAll() returns (vm: Vmm, d: nat, ok: bool, sz: nat)
    ensures vm.Valid() && d in vm.mem.dirs && !ok && sz == 1 && !Contiguous(vm.mem, d, Up(sz))
  {
    vm, d := EmptySpace([0, 1, 2]);
    var leak;
    assert Cost(vm.mem, d, 0, 1) == 2;
    ok, sz, leak := vm.Growproc(d, 0, 1);
    ok, sz, leak := vm.Growproc(d, sz, -1);
  }

  /** With one free page and no table it grows by one byte: growproc reports success, the size
      is 1, and nothing is mapped. */
  method LastPageMissing() returns (vm: Vmm, d: nat, ok: bool, sz: nat)
    ensures vm.Valid() && d in vm.mem.dirs && ok && sz == 1 && !Contiguous(vm.mem, d, Up(sz))
  {
    vm, d := EmptySpace([0, 1]);
    var leak;
    assert Cost(vm.mem, d, 0, 0) == 0 && StuckAt(vm.mem, d, 0, 0, 1);
    ok, sz, leak := vm.Growproc(d, 0, 1);
  }

  /** One page, the first of the second directory entry, is mapped; deallocuvm of everything from
      page 1 on leaves it mapped. */
  method LeavesPageBehind() returns (vm: Vmm, d: nat)
    ensures vm.Valid() && d in vm.mem.dirs && Lookup(vm.mem, d, NENTRIES).Pte?
  {
    vm, d := EmptySpace([0, 1, 2]);
    var a := NENTRIES * PGSIZE;
    assert Up(a) == NENTRIES && Up(a + PGSIZE) == NENTRIES + 1;
    assert !HasTable(vm.mem, d, 0) && !HasTable(vm.mem, d, NENTRIES);
    assert TableOk(vm.mem, vm.owner, d, 0);
    assert Cost(vm.mem, d, NENTRIES, NENTRIES) == 0;
    assert Cost(vm.mem, d, NENTRIES, NENTRIES + 1) == 2;
    var r, leak, w := vm.Allocuvm(d, a, a + PGSIZE);
    assert Holds(vm.mem, d, NENTRIES, 6, Zeros());
    JumpMisses(vm.mem, d);
    r := vm.Deallocuvm(d, 2 * a, PGSIZE);
  }
}
