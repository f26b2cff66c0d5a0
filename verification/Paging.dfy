/**
 Four-level page tables (memory/paging/paging.c).

 A descriptor is a root table plus every table page reachable from it.  Physical
 memory holding table pages is a map from frame numbers to tables of 512 entries;
 fresh zeroed frames come from `supply`, in whatever order the allocator hands them
 out.  `Path` names a table by the indices that lead to it from the root.
 */
module Paging {
  import opened Basics

  const PAGE_SIZE: nat := 4096
  const ENTRIES: nat := 512
  const FRAME_LIMIT: nat := 0x100_0000_0000
  const PAGE_NUMBERS: nat := 0x10_0000_0000
  /** Physical addresses have 52 bits: 40 in an entry and 12 in the page. */
  const PHYSICAL_LIMIT: nat := 0x10_0000_0000_0000

  /** The bits of a paging entry that the kernel reads or writes. */
  datatype Entry = Entry(present: bool, writable: bool, user: bool, frame: nat)

  const NULL_ENTRY := Entry(false, false, false, 0)

  datatype Flags = Flags(present: bool, writable: bool, user: bool)

  /** A table's position: the root, or slot `index` of the table at `up`. */
  datatype Path = Root | Down(up: Path, index: nat)

  datatype Space = Space(tables: map<nat, seq<Entry>>, root: nat, supply: seq<nat>)

  datatype Status = Ok | InvalidArgument

  function ZeroTable(): (t: seq<Entry>)
    ensures |t| == ENTRIES && forall i :: 0 <= i < ENTRIES ==> t[i] == NULL_ENTRY
  {
    seq(ENTRIES, i => NULL_ENTRY)
  }

  function Link(frame: nat): Entry {
    Entry(true, true, true, frame)
  }

  function LeafEntry(phys: nat, flags: Flags): Entry {
    Entry(flags.present, flags.writable, flags.user, phys / PAGE_SIZE % FRAME_LIMIT)
  }

  function Pml4Index(va: nat): nat { va / 0x80_0000_0000 % ENTRIES }
  function PdptIndex(va: nat): nat { va / 0x4000_0000 % ENTRIES }
  function PdIndex(va: nat): nat { va / 0x20_0000 % ENTRIES }
  function PtIndex(va: nat): nat { va / 0x1000 % ENTRIES }

  function PdptPath(va: nat): Path { Down(Root, Pml4Index(va)) }
  function PdPath(va: nat): Path { Down(PdptPath(va), PdptIndex(va)) }
  function PtPath(va: nat): Path { Down(PdPath(va), PdIndex(va)) }

  /** Bits 12..47 of an address, the only ones the tables look at. */
  function PageNumber(va: nat): nat { va / PAGE_SIZE % PAGE_NUMBERS }

  function Depth(p: Path): nat {
    match p
    case Root => 0
    case Down(up, _) => Depth(up) + 1
  }

  // ---------------------------------------------------------------- invariant

  /** The frame of the table at the end of each path. */
  type Paths = map<Path, nat>

  /** Paths start at the root, are prefix closed and at most three steps long. */
  ghost predicate Rooted(s: Space, paths: Paths) {
    && Root in paths && paths[Root] == s.root
    && (forall p :: p in paths ==> Depth(p) <= 3)
    && (forall p, i: nat :: Down(p, i) in paths ==> p in paths && i < ENTRIES)
  }

  /** The tables are exactly the frames that `paths` names, each named once. */
  ghost predicate Separated(s: Space, paths: Paths) {
    && s.tables.Keys == paths.Values
    && (forall p :: p in paths ==> paths[p] in s.tables)
    && (forall f :: f in s.tables ==> |s.tables[f]| == ENTRIES)
    && (forall p, q {:trigger paths[p], paths[q]} :: p in paths && q in paths && paths[p] == paths[q] ==> p == q)
  }

  /** An upper-level slot is a link to the table one step down, or null. */
  ghost predicate Linked(s: Space, paths: Paths)
    requires Separated(s, paths)
  {
    forall p, i: nat {:trigger Down(p, i)} :: p in paths && Depth(p) < 3 && i < ENTRIES ==>
      s.tables[paths[p]][i] == if Down(p, i) in paths then Link(paths[Down(p, i)]) else NULL_ENTRY
  }

  /** Every table page is reached by exactly one index path, `paths` records which. */
  ghost predicate Tree(s: Space, paths: Paths) {
    Rooted(s, paths) && Separated(s, paths) && Linked(s, paths)
  }

  /** The frames the allocator may hand out are distinct and not in use as tables. */
  ghost predicate SupplyFresh(s: Space) {
    && (forall k :: 0 <= k < |s.supply| ==> s.supply[k] !in s.tables)
    && (forall j, k :: 0 <= j < k < |s.supply| ==> s.supply[j] != s.supply[k])
  }

  ghost predicate Valid(s: Space, paths: Paths) {
    Tree(s, paths) && SupplyFresh(s)
  }

  // --------------------------------------------------------------- operations

  /** The table pages that mapping `va` would have to allocate. */
  ghost function Missing(paths: Paths, va: nat): (n: nat)
    ensures n <= 3
  {
    if PtPath(va) in paths then 0
    else if PdPath(va) in paths then 1
    else if PdptPath(va) in paths then 2
    else 3
  }

  /** One level of `paging_map`: link a fresh zeroed table when the slot is null. */
  function Attach(s: Space, table: nat, index: nat): Space
    requires table in s.tables && index < |s.tables[table]|
    requires s.tables[table][index] != NULL_ENTRY || |s.supply| > 0
  {
    if s.tables[table][index] != NULL_ENTRY then s
    else
      var frame := s.supply[0];
      Space(s.tables[table := s.tables[table][index := Link(frame)]][frame := ZeroTable()], s.root, s.supply[1..])
  }

  ghost function Grown(s: Space, paths: Paths, p: Path, index: nat): Paths
    requires Down(p, index) in paths || |s.supply| > 0
  {
    if Down(p, index) in paths then paths else paths[Down(p, index) := s.supply[0]]
  }

  lemma AttachKeepsTree(s: Space, paths: Paths, p: Path, index: nat)
    requires Valid(s, paths) && p in paths && Depth(p) < 3 && index < ENTRIES
    requires Down(p, index) in paths || |s.supply| > 0
    ensures s.tables[paths[p]][index] != NULL_ENTRY <==> Down(p, index) in paths
    ensures Valid(Attach(s, paths[p], index), Grown(s, paths, p, index))
  {
    if Down(p, index) !in paths {
      AttachSeparates(s, paths, p, index);
      AttachLinks(s, paths, p, index);
      AttachStaysFresh(s, paths[p], index);
    }
  }

  lemma AttachStaysFresh(s: Space, table: nat, index: nat)
    requires SupplyFresh(s) && table in s.tables && index < |s.tables[table]|
    requires s.tables[table][index] != NULL_ENTRY || |s.supply| > 0
    ensures SupplyFresh(Attach(s, table, index))
  {
    if s.tables[table][index] == NULL_ENTRY {
      var s' := Attach(s, table, index);
      assert s'.tables.Keys == s.tables.Keys + {s.supply[0]};
      assert forall k :: 0 <= k < |s'.supply| ==> s'.supply[k] == s.supply[k + 1];
    }
  }

  lemma AttachLinks(s: Space, paths: Paths, p: Path, index: nat)
    requires Valid(s, paths) && p in paths && Depth(p) < 3 && index < ENTRIES
    requires Down(p, index) !in paths && |s.supply| > 0
    requires Separated(Attach(s, paths[p], index), Grown(s, paths, p, index))
    ensures Linked(Attach(s, paths[p], index), Grown(s, paths, p, index))
  {
    var s', paths' := Attach(s, paths[p], index), Grown(s, paths, p, index);
    forall q, i: nat | q in paths' && Depth(q) < 3 && i < ENTRIES
      ensures s'.tables[paths'[q]][i] == if Down(q, i) in paths' then Link(paths'[Down(q, i)]) else NULL_ENTRY
    {
      if q == Down(p, index) {
        assert Down(q, i) !in paths;
        assert s'.tables[s.supply[0]] == ZeroTable();
      } else {
        AttachKeepsLink(s, paths, p, index, q, i);
      }
    }
  }

  lemma AttachKeepsLink(s: Space, paths: Paths, p: Path, index: nat, q: Path, i: nat)
    requires Valid(s, paths) && p in paths && Depth(p) < 3 && index < ENTRIES
    requires Down(p, index) !in paths && |s.supply| > 0
    requires Separated(Attach(s, paths[p], index), Grown(s, paths, p, index))
    requires q in paths && Depth(q) < 3 && i < ENTRIES
    ensures var s', paths' := Attach(s, paths[p], index), Grown(s, paths, p, index);
            s'.tables[paths'[q]][i] == if Down(q, i) in paths' then Link(paths'[Down(q, i)]) else NULL_ENTRY
  {
    assert paths[q] in s.tables && s.supply[0] !in s.tables;
    assert q != p ==> paths[q] != paths[p] && Down(q, i) != Down(p, index);
  }

  lemma AttachSeparates(s: Space, paths: Paths, p: Path, index: nat)
    requires Valid(s, paths) && p in paths && Depth(p) < 3 && index < ENTRIES
    requires Down(p, index) !in paths && |s.supply| > 0
    ensures paths[p] in s.tables && |s.tables[paths[p]]| == ENTRIES
    ensures Separated(Attach(s, paths[p], index), Grown(s, paths, p, index))
  {
    hide Linked, Rooted;
    SlotFollowsPath(s, paths, p, index);
    var frame := s.supply[0];
    var s', paths' := Attach(s, paths[p], index), Grown(s, paths, p, index);
    assert s'.tables.Keys == s.tables.Keys + {frame};
    AddedValue(paths, Down(p, index), frame);
  }

  lemma AddedValue(paths: Paths, p: Path, frame: nat)
    requires p !in paths
    ensures paths[p := frame].Values == paths.Values + {frame}
  {
    var paths' := paths[p := frame];
    assert paths'[p] == frame;
    forall f | f in paths.Values ensures f in paths'.Values {
      var q :| q in paths && paths[q] == f;
      assert q in paths' && paths'[q] == f;
    }
  }

  /** What a walk that ends at slot `index` of the page table at `p` finds. */
  ghost function Leaf(s: Space, paths: Paths, p: Path, index: nat): Entry {
    if p in paths then Slot(s, paths[p], index) else NULL_ENTRY
  }

  /** No table is unlinked or moved, and every leaf slot reads as before. */
  ghost predicate Extends(s: Space, paths: Paths, s': Space, paths': Paths) {
    && s'.root == s.root
    && (forall p :: p in paths ==> p in paths' && paths'[p] == paths[p])
    && (forall p, i :: Depth(p) == 3 && 0 <= i < ENTRIES ==> Leaf(s', paths', p, i) == Leaf(s, paths, p, i))
  }

  ghost function AttachAt(s: Space, paths: Paths, p: Path, index: nat): (r: (Space, Paths))
    requires Valid(s, paths) && p in paths && Depth(p) < 3 && index < ENTRIES
    requires Down(p, index) in paths || |s.supply| > 0
    ensures Valid(r.0, r.1) && Extends(s, paths, r.0, r.1)
    ensures Down(p, index) in r.1 && r.1 == Grown(s, paths, p, index)
    ensures |r.0.supply| == |s.supply| - if Down(p, index) in paths then 0 else 1
    ensures Down(p, index) in paths ==> r == (s, paths)
  {
    AttachKeepsTree(s, paths, p, index);
    AttachExtends(s, paths, p, index);
    (Attach(s, paths[p], index), Grown(s, paths, p, index))
  }

  lemma AttachExtends(s: Space, paths: Paths, p: Path, index: nat)
    requires Valid(s, paths) && p in paths && Depth(p) < 3 && index < ENTRIES
    requires Down(p, index) in paths || |s.supply| > 0
    ensures Extends(s, paths, Attach(s, paths[p], index), Grown(s, paths, p, index))
  {
    forall q, i | Depth(q) == 3 && 0 <= i < ENTRIES
      ensures Leaf(Attach(s, paths[p], index), Grown(s, paths, p, index), q, i) == Leaf(s, paths, q, i)
    {
      if Down(p, index) !in paths {
        AttachKeepsLeaf(s, paths, p, index, q, i);
      }
    }
  }

  lemma AttachKeepsLeaf(s: Space, paths: Paths, p: Path, index: nat, q: Path, i: nat)
    requires Valid(s, paths) && p in paths && Depth(p) < 3 && index < ENTRIES
    requires Down(p, index) !in paths && |s.supply| > 0
    requires Depth(q) == 3 && i < ENTRIES
    ensures Leaf(Attach(s, paths[p], index), Grown(s, paths, p, index), q, i) == Leaf(s, paths, q, i)
  {
    if q == Down(p, index) {
      assert Leaf(s, paths, q, i) == NULL_ENTRY;
    } else if q in paths {
      assert paths[q] in s.tables && paths[q] != paths[p];
    }
  }

  /** The three upper levels of `paging_map`: every table on the way to `va` exists afterwards. */
  ghost function WithTables(s: Space, paths: Paths, va: nat): (r: (Space, Paths))
    requires Valid(s, paths) && Missing(paths, va) <= |s.supply|
    ensures Valid(r.0, r.1) && Extends(s, paths, r.0, r.1)
    ensures PtPath(va) in r.1
    ensures |r.0.supply| == |s.supply| - Missing(paths, va)
    ensures Missing(paths, va) == 0 ==> r == (s, paths)
  {
    var (s1, p1) := AttachAt(s, paths, Root, Pml4Index(va));
    var (s2, p2) := AttachAt(s1, p1, PdptPath(va), PdptIndex(va));
    AttachAt(s2, p2, PdPath(va), PdIndex(va))
  }

  /** `paging_map`: the leaf slot of `va` is overwritten whatever it held. */
  ghost function MapPage(s: Space, paths: Paths, va: nat, phys: nat, flags: Flags): (r: (Space, Paths))
    requires Valid(s, paths) && Missing(paths, va) <= |s.supply|
  {
    var (s1, p1) := WithTables(s, paths, va);
    (WriteLeaf(s1, p1[PtPath(va)], PtIndex(va), LeafEntry(phys, flags)), p1)
  }

  function WriteLeaf(s: Space, table: nat, index: nat, entry: Entry): Space
    requires table in s.tables && index < |s.tables[table]|
  {
    s.(tables := s.tables[table := s.tables[table][index := entry]])
  }

  // -------------------------------------------------------------------- walks

  function Slot(s: Space, table: nat, index: nat): Entry {
    if table in s.tables && index < |s.tables[table]| then s.tables[table][index] else NULL_ENTRY
  }

  /** Follow the three links above a leaf; `None` when one of them is null. */
  function PageTable(s: Space, va: nat): Option<nat> {
    var pml4e := Slot(s, s.root, Pml4Index(va));
    if pml4e == NULL_ENTRY then None else
    var pdpte := Slot(s, pml4e.frame, PdptIndex(va));
    if pdpte == NULL_ENTRY then None else
    var pde := Slot(s, pdpte.frame, PdIndex(va));
    if pde == NULL_ENTRY then None else
    Some(pde.frame)
  }

  /** The leaf entry of `va`, null when no table covers it. */
  function Lookup(s: Space, va: nat): Entry {
    match PageTable(s, va)
    case None => NULL_ENTRY
    case Some(table) => Slot(s, table, PtIndex(va))
  }

  /** Where the processor finds an address, and what it lets the kernel write and the user touch there. */
  datatype Access = Access(address: nat, writable: bool, user: bool)

  /**
   The processor's own walk (sections 4.5 and 4.6 of volume 3A of the Intel 64 and IA-32
   Architectures Software Developer's Manual): every level must be present, and a right is
   granted only if every level grants it.
   */
  function Grants(s: Space, va: nat): Option<Access> {
    var pml4e := Slot(s, s.root, Pml4Index(va));
    if !pml4e.present then None else
    var pdpte := Slot(s, pml4e.frame, PdptIndex(va));
    if !pdpte.present then None else
    var pde := Slot(s, pdpte.frame, PdIndex(va));
    if !pde.present then None else
    var pte := Slot(s, pde.frame, PtIndex(va));
    if !pte.present then None else
    Some(Access(pte.frame * PAGE_SIZE + va % PAGE_SIZE,
                pml4e.writable && pdpte.writable && pde.writable && pte.writable,
                pml4e.user && pdpte.user && pde.user && pte.user))
  }

  function Translate(s: Space, va: nat): Option<nat> {
    var access := Grants(s, va);
    if access == None then None else Some(access.value.address)
  }

  /** What a mapping to `phys` asks for at the address `va` of the page. */
  function Asked(phys: nat, flags: Flags, va: nat): Option<Access> {
    if !flags.present then None
    else Some(Access((phys - phys % PAGE_SIZE) % PHYSICAL_LIMIT + va % PAGE_SIZE, flags.writable, flags.user))
  }

  /** The pages from `virt` on are granted as asked, page by page from `phys` on, and all others as before. */
  ghost predicate RangeGranted(s: Space, s': Space, virt: nat, phys: nat, count: nat, flags: Flags) {
    forall v :: Grants(s', v) ==
      if Offset(v, virt) < count then Asked(phys + Offset(v, virt) * PAGE_SIZE, flags, v) else Grants(s, v)
  }

  /**
   `paging_get`: besides the indexed slot at each level, the code also tests slot 0 of
   the page-directory-pointer table and slot 0 of the page directory.
   */
  function Get(s: Space, va: nat): Option<Entry> {
    var pml4e := Slot(s, s.root, Pml4Index(va));
    if pml4e == NULL_ENTRY then None else
    if Slot(s, pml4e.frame, 0) == NULL_ENTRY then None else
    var pdpte := Slot(s, pml4e.frame, PdptIndex(va));
    if pdpte == NULL_ENTRY then None else
    if Slot(s, pdpte.frame, 0) == NULL_ENTRY then None else
    var pde := Slot(s, pdpte.frame, PdIndex(va));
    if pde == NULL_ENTRY then None else
    if Slot(s, pdpte.frame, 0) == NULL_ENTRY then None else
    Some(Slot(s, pde.frame, PtIndex(va)))
  }

  /** `paging_get_physical_address`; `None` stands for the null pointer. */
  function PhysicalAddress(s: Space, va: nat): Option<nat> {
    match Get(s, va)
    case None => None
    case Some(e) => Some(e.frame * PAGE_SIZE + va % PAGE_SIZE)
  }

  // ------------------------------------------------------------------- lemmas

  lemma RootHasPath(s: Space, paths: Paths)
    requires Valid(s, paths)
    ensures Root in paths && paths[Root] == s.root
  {
  }

  lemma PathHasTable(s: Space, paths: Paths, p: Path)
    requires Valid(s, paths) && p in paths
    ensures paths[p] in s.tables && |s.tables[paths[p]]| == ENTRIES
  {
  }

  lemma PathDepth(s: Space, paths: Paths, p: Path)
    requires Valid(s, paths)
    ensures p in paths ==> Depth(p) <= 3
  {
  }

  lemma SlotFollowsPath(s: Space, paths: Paths, p: Path, i: nat)
    requires Valid(s, paths) && p in paths && Depth(p) < 3 && i < ENTRIES
    ensures Slot(s, paths[p], i) == if Down(p, i) in paths then Link(paths[Down(p, i)]) else NULL_ENTRY
  {
  }

  lemma PageTableIsPath(s: Space, paths: Paths, va: nat)
    requires Valid(s, paths)
    ensures PageTable(s, va) == if PtPath(va) in paths then Some(paths[PtPath(va)]) else None
    ensures Lookup(s, va) == Leaf(s, paths, PtPath(va), PtIndex(va))
  {
    SlotFollowsPath(s, paths, Root, Pml4Index(va));
    if PdptPath(va) in paths {
      SlotFollowsPath(s, paths, PdptPath(va), PdptIndex(va));
      if PdPath(va) in paths {
        SlotFollowsPath(s, paths, PdPath(va), PdIndex(va));
      }
    }
  }

  /** What the processor grants by a leaf entry alone. */
  function GrantOf(e: Entry, va: nat): Option<Access> {
    if e.present then Some(Access(e.frame * PAGE_SIZE + va % PAGE_SIZE, e.writable, e.user)) else None
  }

  /** The processor sees exactly the leaf entries marked present. */
  lemma TranslateIsLookup(s: Space, paths: Paths, va: nat)
    requires Valid(s, paths)
    ensures Translate(s, va) ==
            if Lookup(s, va).present then Some(Lookup(s, va).frame * PAGE_SIZE + va % PAGE_SIZE) else None
  {
    LeafDecides(s, paths, va);
  }

  /** The upper levels withhold nothing: what the leaf entry says is what the processor grants. */
  lemma LeafDecides(s: Space, paths: Paths, va: nat)
    requires Valid(s, paths)
    ensures Grants(s, va) == GrantOf(Lookup(s, va), va)
  {
    SlotFollowsPath(s, paths, Root, Pml4Index(va));
    if PdptPath(va) in paths {
      SlotFollowsPath(s, paths, PdptPath(va), PdptIndex(va));
      if PdPath(va) in paths {
        SlotFollowsPath(s, paths, PdPath(va), PdIndex(va));
      }
    }
  }

  /**
   `paging_get` finds the leaf exactly when a table covers the address and slot 0 is
   populated in both middle tables; otherwise it answers null, even for a mapped page.
   */
  lemma GetExact(s: Space, paths: Paths, va: nat)
    requires Valid(s, paths)
    ensures Get(s, va) ==
            if PtPath(va) in paths && Down(PdptPath(va), 0) in paths && Down(PdPath(va), 0) in paths
            then Some(Lookup(s, va)) else None
  {
    PageTableIsPath(s, paths, va);
    SlotFollowsPath(s, paths, Root, Pml4Index(va));
    if PdptPath(va) in paths {
      SlotFollowsPath(s, paths, PdptPath(va), 0);
      SlotFollowsPath(s, paths, PdptPath(va), PdptIndex(va));
      if PdPath(va) in paths {
        SlotFollowsPath(s, paths, PdPath(va), 0);
        SlotFollowsPath(s, paths, PdPath(va), PdIndex(va));
      }
    }
  }

  /** The two agree on the address of a mapped page exactly when the two tests of slot 0 let the kernel see it. */
  lemma PhysicalAddressExact(s: Space, paths: Paths, va: nat)
    requires Valid(s, paths) && Lookup(s, va).present
    ensures PhysicalAddress(s, va) == Translate(s, va) <==>
            Down(PdptPath(va), 0) in paths && Down(PdPath(va), 0) in paths
  {
    TranslateIsLookup(s, paths, va);
    PageTableIsPath(s, paths, va);
    hide Valid, Translate, Lookup, Get;
    GetExact(s, paths, va);
  }

  /**
   One mapping in a new descriptor is enough: the processor translates the page at
   1 GiB, whose slot in the page-directory-pointer table is 1, and `paging_get` denies it.
   */
  lemma GetMissesMappedPage()
    ensures var s, paths := Fresh(1, [2, 3, 4]), map[Root := 1];
            && Valid(s, paths)
            && var s' := MapPage(s, paths, 0x4000_0000, 0x5000, Flags(true, true, false)).0;
               Translate(s', 0x4000_0000) == Some(0x5000) && Get(s', 0x4000_0000) == None
  {
    hide Valid, MapPage, Fresh, Translate, Get;
    var s, paths, va := Fresh(1, [2, 3, 4]), map[Root := 1], 0x4000_0000;
    FreshIsValid(1, [2, 3, 4]);
    assert |s.supply| == 3 by { FreshSupply(1, [2, 3, 4]); }
    MapPageMaps(s, paths, va, 0x5000, Flags(true, true, false));
    MapPagePaths(s, paths, va, 0x5000, Flags(true, true, false));
    var (s', paths') := MapPage(s, paths, va, 0x5000, Flags(true, true, false));
    TranslateIsLookup(s', paths', va);
    GetExact(s', paths', va);
  }

  lemma FreshSupply(root: nat, supply: seq<nat>)
    ensures Fresh(root, supply).supply == supply
  {
  }

  lemma TablesAbove(s: Space, paths: Paths, va: nat)
    requires Valid(s, paths)
    ensures Root in paths
    ensures PdPath(va) in paths ==> PdptPath(va) in paths
    ensures PtPath(va) in paths ==> PdPath(va) in paths
  {
  }

  lemma MapPagePaths(s: Space, paths: Paths, va: nat, phys: nat, flags: Flags)
    requires Valid(s, paths) && Missing(paths, va) <= |s.supply|
    ensures forall p :: p in MapPage(s, paths, va, phys, flags).1 ==>
              p in paths || p == PdptPath(va) || p == PdPath(va) || p == PtPath(va)
  {
    TablesAbove(s, paths, va);
    hide Valid, AttachAt, Grown;
    var (s1, p1) := AttachAt(s, paths, Root, Pml4Index(va));
    GrownPaths(s, paths, Root, Pml4Index(va));
    var (s2, p2) := AttachAt(s1, p1, PdptPath(va), PdptIndex(va));
    GrownPaths(s1, p1, PdptPath(va), PdptIndex(va));
    GrownPaths(s2, p2, PdPath(va), PdIndex(va));
  }

  lemma GrownPaths(s: Space, paths: Paths, p: Path, index: nat)
    requires Down(p, index) in paths || |s.supply| > 0
    ensures forall q :: q in Grown(s, paths, p, index) <==> q in paths || q == Down(p, index)
  {
  }

  /** Two addresses use the same leaf slot iff bits 12..47 agree. */
  lemma SlotIsPageNumber(a: nat, b: nat)
    ensures PtPath(a) == PtPath(b) && PtIndex(a) == PtIndex(b) <==> PageNumber(a) == PageNumber(b)
  {
    Split(a);
    Split(b);
  }

  /** The page number is the four indices written as digits to base 512. */
  lemma Split(a: nat)
    ensures PageNumber(a) == ((Pml4Index(a) * 512 + PdptIndex(a)) * 512 + PdIndex(a)) * 512 + PtIndex(a)
  {
    var v := a / 4096;
    assert a / 0x20_0000 == v / 512;
    assert a / 0x4000_0000 == v / 512 / 512 by { DivTwice(v); assert a / 0x4000_0000 == v / 0x4_0000; }
    assert a / 0x80_0000_0000 == v / 512 / 512 / 512 by {
      DivTwice(v);
      assert a / 0x80_0000_0000 == v / 0x800_0000 == v / 0x4_0000 / 512;
    }
    LastDigit27(v);
    LastDigit18(v / 512);
    LastDigit9(v / 512 / 512);
  }

  lemma DivTwice(v: nat)
    ensures v / 0x4_0000 == v / 512 / 512
  {
  }

  lemma LastDigit27(v: nat)
    ensures v % 0x10_0000_0000 == v / 512 % 0x800_0000 * 512 + v % 512
  {
  }

  lemma LastDigit18(v: nat)
    ensures v % 0x800_0000 == v / 512 % 0x4_0000 * 512 + v % 512
  {
  }

  lemma LastDigit9(v: nat)
    ensures v % 0x4_0000 == v / 512 % 512 * 512 + v % 512
  {
  }

  /**
   The only translation `paging_map` changes is that of the page it is given, and no
   table page ever leaves the tree.  Nothing is allocated when the tables exist.
   */
  lemma MapPageMaps(s: Space, paths: Paths, va: nat, phys: nat, flags: Flags)
    requires Valid(s, paths) && Missing(paths, va) <= |s.supply|
    ensures var (s', paths') := MapPage(s, paths, va, phys, flags);
            && Valid(s', paths')
            && (forall p :: p in paths ==> p in paths' && paths'[p] == paths[p])
            && PtPath(va) in paths'
            && |s'.supply| == |s.supply| - Missing(paths, va)
            && (Missing(paths, va) == 0 ==> paths' == paths && s'.supply == s.supply)
            && forall v :: Lookup(s', v) ==
                 if PageNumber(v) == PageNumber(va) then LeafEntry(phys, flags) else Lookup(s, v)
  {
    var (s1, p1) := WithTables(s, paths, va);
    WriteLeafKeepsTree(s1, p1, PtPath(va), PtIndex(va), LeafEntry(phys, flags));
    var (s', paths') := MapPage(s, paths, va, phys, flags);
    forall v ensures Lookup(s', v) ==
                 if PageNumber(v) == PageNumber(va) then LeafEntry(phys, flags) else Lookup(s, v)
    {
      MapPageLookup(s, paths, va, phys, flags, v);
    }
  }

  lemma LeafIsAsked(phys: nat, flags: Flags, va: nat)
    ensures GrantOf(LeafEntry(phys, flags), va) == Asked(phys, flags, va)
  {
    var n := phys / PAGE_SIZE;
    assert phys - phys % PAGE_SIZE == n * PAGE_SIZE;
    assert n == n / FRAME_LIMIT * FRAME_LIMIT + n % FRAME_LIMIT;
    assert n * PAGE_SIZE == n / FRAME_LIMIT * PHYSICAL_LIMIT + n % FRAME_LIMIT * PAGE_SIZE;
  }

  /** Changing leaf entries changes what is granted on their pages, to what was asked for. */
  lemma RangeIsGranted(s: Space, paths: Paths, s': Space, paths': Paths, virt: nat, phys: nat, count: nat, flags: Flags)
    requires Valid(s, paths) && Valid(s', paths') && RangeMapped(s, s', virt, phys, count, flags)
    ensures RangeGranted(s, s', virt, phys, count, flags)
  {
    hide Valid, Lookup, Grants, LeafEntry, Offset, GrantOf, Asked;
    forall v
      ensures Grants(s', v) ==
        if Offset(v, virt) < count then Asked(phys + Offset(v, virt) * PAGE_SIZE, flags, v) else Grants(s, v)
    {
      LeafDecides(s, paths, v);
      LeafDecides(s', paths', v);
      LeafIsAsked(phys + Offset(v, virt) * PAGE_SIZE, flags, v);
    }
  }

  /**
   After `paging_map` the processor finds the page where it was asked to be mapped, with the
   rights that were asked for and not one more or less; every other page as before.
   */
  lemma MapPageGrants(s: Space, paths: Paths, va: nat, phys: nat, flags: Flags)
    requires Valid(s, paths) && Missing(paths, va) <= |s.supply|
    ensures RangeGranted(s, MapPage(s, paths, va, phys, flags).0, va, phys, 1, flags)
  {
    hide Valid, MapPage, Lookup, LeafEntry, PageNumber, Offset;
    MapPageMaps(s, paths, va, phys, flags);
    var (s', paths') := MapPage(s, paths, va, phys, flags);
    forall v
      ensures Lookup(s', v) ==
        if Offset(v, va) < 1 then LeafEntry(phys + Offset(v, va) * PAGE_SIZE, flags) else Lookup(s, v)
    {
      OffsetOfPage(v, va, 0);
    }
    RangeIsGranted(s, paths, s', paths', va, phys, 1, flags);
  }

  lemma PtPathIsDeep(va: nat)
    ensures Depth(PtPath(va)) == 3 && PtIndex(va) < ENTRIES
  {
  }

  lemma MapPageLookup(s: Space, paths: Paths, va: nat, phys: nat, flags: Flags, v: nat)
    requires Valid(s, paths) && Missing(paths, va) <= |s.supply|
    ensures Lookup(MapPage(s, paths, va, phys, flags).0, v) ==
            if PageNumber(v) == PageNumber(va) then LeafEntry(phys, flags) else Lookup(s, v)
  {
    hide Lookup, PageNumber, LeafEntry, PageTable, WriteLeaf, Valid, Leaf, PtPath, PtIndex;
    var (s1, p1) := WithTables(s, paths, va);
    PtPathIsDeep(va);
    PtPathIsDeep(v);
    WriteLeafKeepsTree(s1, p1, PtPath(va), PtIndex(va), LeafEntry(phys, flags));
    var (s', paths') := MapPage(s, paths, va, phys, flags);
    SlotIsPageNumber(v, va);
    PageTableIsPath(s', paths', v);
    PageTableIsPath(s, paths, v);
    assert Leaf(s1, p1, PtPath(v), PtIndex(v)) == Leaf(s, paths, PtPath(v), PtIndex(v));
  }

  lemma WriteLeafKeepsTree(s: Space, paths: Paths, p: Path, index: nat, entry: Entry)
    requires Valid(s, paths) && p in paths && Depth(p) == 3 && index < ENTRIES
    ensures Valid(WriteLeaf(s, paths[p], index, entry), paths)
    ensures forall q, i :: Depth(q) == 3 && 0 <= i < ENTRIES ==>
              Leaf(WriteLeaf(s, paths[p], index, entry), paths, q, i) ==
              if q == p && i == index then entry else Leaf(s, paths, q, i)
  {
    var s' := WriteLeaf(s, paths[p], index, entry);
    assert s'.tables.Keys == s.tables.Keys;
    forall q, i: nat | q in paths && Depth(q) < 3 && i < ENTRIES
      ensures s'.tables[paths[q]][i] == s.tables[paths[q]][i]
    {
      assert paths[q] != paths[p];
    }
  }

  // ---------------------------------------------------------- whole histories

  /** `paging_desc_new`: a zeroed root table. */
  function Fresh(root: nat, supply: seq<nat>): Space {
    Space(map[root := ZeroTable()], root, supply)
  }

  lemma FreshIsValid(root: nat, supply: seq<nat>)
    requires root !in supply
    requires forall j, k :: 0 <= j < k < |supply| ==> supply[j] != supply[k]
    ensures Valid(Fresh(root, supply), map[Root := root])
    ensures forall v :: Lookup(Fresh(root, supply), v) == NULL_ENTRY
  {
    var paths := map[Root := root];
    assert paths.Values == {root} by { assert paths[Root] == root; }
    forall v ensures Lookup(Fresh(root, supply), v) == NULL_ENTRY {
      PageTableIsPath(Fresh(root, supply), paths, v);
    }
  }

  datatype Call = Call(va: nat, phys: nat, flags: Flags)

  ghost function Run(s: Space, paths: Paths, calls: seq<Call>): (r: (Space, Paths))
    requires Valid(s, paths) && 3 * |calls| <= |s.supply|
    ensures Valid(r.0, r.1) && |r.0.supply| >= |s.supply| - 3 * |calls|
  {
    if calls == [] then (s, paths)
    else
      var before := calls[..|calls| - 1];
      var c := calls[|calls| - 1];
      var (s1, p1) := Run(s, paths, before);
      MapPageMaps(s1, p1, c.va, c.phys, c.flags);
      MapPage(s1, p1, c.va, c.phys, c.flags)
  }

  /** A flat map's answer: the last call for the page, if there was one. */
  function LastCall(calls: seq<Call>, va: nat): Option<Call> {
    if calls == [] then None
    else
      var c := calls[|calls| - 1];
      if PageNumber(va) == PageNumber(c.va) then Some(c) else LastCall(calls[..|calls| - 1], va)
  }

  /**
   The table tree is a flat map from page numbers to mappings: after any sequence of
   `paging_map` calls the processor finds each page where the last call for it put it, with
   the rights of that call, and every table page ever linked is still linked where it was.
   */
  lemma {:induction false} RunRefinesFlatMap(s: Space, paths: Paths, calls: seq<Call>, va: nat)
    requires Valid(s, paths) && 3 * |calls| <= |s.supply|
    ensures var (s', paths') := Run(s, paths, calls);
            var last := LastCall(calls, va);
            && Lookup(s', va) == (if last == None then Lookup(s, va) else LeafEntry(last.value.phys, last.value.flags))
            && Grants(s', va) == (if last == None then Grants(s, va) else Asked(last.value.phys, last.value.flags, va))
            && forall p :: p in paths ==> p in paths' && paths'[p] == paths[p]
  {
    hide Valid, MapPage, Lookup, Grants, Asked, LeafEntry, GrantOf;
    var last := LastCall(calls, va);
    if calls != [] {
      var before, c := calls[..|calls| - 1], calls[|calls| - 1];
      RunRefinesFlatMap(s, paths, before, va);
      var (s1, p1) := Run(s, paths, before);
      MapPageMaps(s1, p1, c.va, c.phys, c.flags);
    }
    var (s', paths') := Run(s, paths, calls);
    LeafDecides(s, paths, va);
    LeafDecides(s', paths', va);
    if last.Some? { LeafIsAsked(last.value.phys, last.value.flags, va); }
  }

  /** How far `v` lies past `virt`, in pages and modulo the 48-bit address space. */
  function Offset(v: nat, virt: nat): nat {
    (PageNumber(v) + PAGE_NUMBERS - PageNumber(virt)) % PAGE_NUMBERS
  }

  lemma OffsetOfPage(v: nat, virt: nat, k: nat)
    requires k < PAGE_NUMBERS
    ensures PageNumber(v) == PageNumber(virt + k * PAGE_SIZE) <==> Offset(v, virt) == k
  {
    assert (virt + k * PAGE_SIZE) / PAGE_SIZE == virt / PAGE_SIZE + k;
  }

  /** Pages virt, virt+1, ... are backed by phys, phys+1, ... and nothing else moved. */
  ghost predicate RangeMapped(s: Space, s': Space, virt: nat, phys: nat, count: nat, flags: Flags) {
    forall v :: Lookup(s', v) ==
      if Offset(v, virt) < count then LeafEntry(phys + Offset(v, virt) * PAGE_SIZE, flags) else Lookup(s, v)
  }

  /** Every page of the range already has its page table. */
  ghost predicate Covered(paths: Paths, virt: nat, count: nat) {
    forall k :: 0 <= k < count ==> PtPath(virt + k * PAGE_SIZE) in paths
  }

  /** What a mapping call may do to the tree besides changing leaves. */
  ghost predicate Grew(s: Space, paths: Paths, s': Space, paths': Paths, most: nat) {
    && s'.root == s.root
    && (forall p :: p in paths ==> p in paths' && paths'[p] == paths[p])
    && |s.supply| - most <= |s'.supply| <= |s.supply|
  }

  // ----------------------------------------------------------------- teardown

  /** `paging_desc_entry_free` skips a table, and all below it, when its slot 0 is null. */
  ghost predicate Kept(s: Space, paths: Paths, p: Path) {
    p in paths && Slot(s, paths[p], 0) != NULL_ENTRY
  }

  /** Freeing the table at `p` comes to the table at `q`. */
  ghost predicate Reached(s: Space, paths: Paths, p: Path, q: Path) {
    Kept(s, paths, q) && (q == p || (q.Down? && Reached(s, paths, p, q.up)))
  }

  /** The prefix of `q` that is `d` steps long. */
  ghost function Above(q: Path, d: nat): (r: Path)
    ensures Depth(q) >= d ==> Depth(r) == d
  {
    if Depth(q) <= d then q else Above(q.up, d)
  }

  lemma {:induction false} ReachedIsBelow(s: Space, paths: Paths, p: Path, q: Path)
    requires Reached(s, paths, p, q)
    ensures Depth(p) <= Depth(q) && Above(q, Depth(p)) == p && Kept(s, paths, p)
    decreases q
  {
    if q != p {
      ReachedIsBelow(s, paths, p, q.up);
    }
  }

  /** Below a kept table, a table is reached through exactly one child. */
  lemma {:induction false} ReachedThroughChild(s: Space, paths: Paths, p: Path, q: Path)
    requires Valid(s, paths) && p in paths && q != p
    ensures Reached(s, paths, p, q) <==>
            Kept(s, paths, p) && Depth(p) < Depth(q) &&
            exists j: nat :: j < ENTRIES && Above(q, Depth(p) + 1) == Down(p, j) && Reached(s, paths, Down(p, j), q)
    decreases q
  {
    hide Linked;
    if Reached(s, paths, p, q) {
      ReachedIsBelow(s, paths, p, q);
      if q.up == p {
        assert q == Down(p, q.index);
      } else {
        ReachedThroughChild(s, paths, p, q.up);
      }
    } else if exists j: nat :: j < ENTRIES && Reached(s, paths, Down(p, j), q) && Kept(s, paths, p) {
      var j: nat :| j < ENTRIES && Reached(s, paths, Down(p, j), q);
      assert q != Down(p, j) by { assert Reached(s, paths, p, p); }
      ReachedIsBelow(s, paths, Down(p, j), q.up);
      assert q.up != p;
      ReachedThroughChild(s, paths, p, q.up);
    }
  }

  /** What lies below slot `i` lies below no other slot, and nothing lies below a null one. */
  lemma ChildSubtree(s: Space, paths: Paths, p: Path, i: nat)
    ensures forall q :: Reached(s, paths, Down(p, i), q) ==> q != p && Down(p, i) in paths
    ensures forall q, j: nat :: Reached(s, paths, Down(p, i), q) && j != i ==> !Reached(s, paths, Down(p, j), q)
  {
    forall q | Reached(s, paths, Down(p, i), q)
      ensures q != p && Down(p, i) in paths && forall j: nat :: j != i ==> !Reached(s, paths, Down(p, j), q)
    {
      ReachedIsBelow(s, paths, Down(p, i), q);
      forall j: nat | j != i && Reached(s, paths, Down(p, j), q) ensures false {
        ReachedIsBelow(s, paths, Down(p, j), q);
      }
    }
  }

  /** The tables that freeing the whole descriptor comes to. */
  ghost predicate Torn(s: Space, paths: Paths, q: Path) {
    q == Root || exists j: nat :: j < ENTRIES && Reached(s, paths, Down(Root, j), q)
  }

  lemma {:induction false} TornIffKeptUpwards(s: Space, paths: Paths, q: Path)
    requires Valid(s, paths) && q in paths && q != Root
    ensures Torn(s, paths, q) <==> Kept(s, paths, q) && Torn(s, paths, q.up)
    decreases q
  {
    hide Valid;
    UpStaysLinked(s, paths, q);
    if q.up == Root {
      assert q == Down(Root, q.index);
      forall j: nat | j < ENTRIES && Reached(s, paths, Down(Root, j), q) ensures Kept(s, paths, q) {
      }
      if Kept(s, paths, q) {
        assert Reached(s, paths, Down(Root, q.index), q);
      }
    } else if Torn(s, paths, q) {
      var j: nat :| j < ENTRIES && Reached(s, paths, Down(Root, j), q);
      assert q != Down(Root, j);
      assert Reached(s, paths, Down(Root, j), q.up);
    } else if Torn(s, paths, q.up) {
      var j: nat :| j < ENTRIES && Reached(s, paths, Down(Root, j), q.up);
      assert Reached(s, paths, Down(Root, j), q) <==> Kept(s, paths, q);
    }
  }

  lemma UpStaysLinked(s: Space, paths: Paths, q: Path)
    requires Valid(s, paths) && q in paths && q != Root
    ensures q.up in paths && q.index < ENTRIES
  {
    assert q == Down(q.up, q.index);
  }

  /**
   Tearing a descriptor down returns each table page at most once, and every one of
   them exactly when slot 0 of every table below the root is populated.
   */
  lemma TeardownIsComplete(s: Space, paths: Paths)
    requires Valid(s, paths)
    ensures (forall q :: q in paths ==> Torn(s, paths, q)) <==>
            (forall q :: q in paths && q != Root ==> Kept(s, paths, q))
  {
    forall q | q in paths && q != Root ensures Torn(s, paths, q) ==> Kept(s, paths, q) {
      TornIffKeptUpwards(s, paths, q);
    }
    if forall q :: q in paths && q != Root ==> Kept(s, paths, q) {
      forall q | q in paths ensures Torn(s, paths, q) {
        AllKeptAllTorn(s, paths, q);
      }
    }
  }

  /** The descriptor of `GetMissesMappedPage` again: only its root is freed, the other three tables leak. */
  lemma TeardownLeaks()
    ensures var s, paths := Fresh(1, [2, 3, 4]), map[Root := 1];
            && Valid(s, paths)
            && var (s', paths') := MapPage(s, paths, 0x4000_0000, 0x5000, Flags(true, true, false));
               && PdptPath(0x4000_0000) in paths' && PdPath(0x4000_0000) in paths' && PtPath(0x4000_0000) in paths'
               && forall q :: q in paths' && Torn(s', paths', q) ==> q == Root
  {
    hide Valid, MapPage, Fresh, Torn;
    var s, paths, va := Fresh(1, [2, 3, 4]), map[Root := 1], 0x4000_0000;
    FreshIsValid(1, [2, 3, 4]);
    assert |s.supply| == 3 by { FreshSupply(1, [2, 3, 4]); }
    MapPageMaps(s, paths, va, 0x5000, Flags(true, true, false));
    MapPagePaths(s, paths, va, 0x5000, Flags(true, true, false));
    var (s', paths') := MapPage(s, paths, va, 0x5000, Flags(true, true, false));
    var p1, p2, p3 := PdptPath(va), PdPath(va), PtPath(va);
    TablesAbove(s', paths', va);
    SlotFollowsPath(s', paths', p1, 0);
    TornIffKeptUpwards(s', paths', p1);
    TornIffKeptUpwards(s', paths', p2);
    TornIffKeptUpwards(s', paths', p3);
  }

  lemma {:induction false} AllKeptAllTorn(s: Space, paths: Paths, q: Path)
    requires Valid(s, paths) && q in paths
    requires forall r :: r in paths && r != Root ==> Kept(s, paths, r)
    ensures Torn(s, paths, q)
    decreases q
  {
    hide Valid;
    if q != Root {
      UpStaysLinked(s, paths, q);
      AllKeptAllTorn(s, paths, q.up);
      TornIffKeptUpwards(s, paths, q);
    }
  }

  ghost predicate Distinct<T>(s: seq<T>) {
    forall j, k :: 0 <= j < k < |s| ==> s[j] != s[k]
  }

  lemma DistinctConcat<T>(a: seq<T>, b: seq<T>)
    requires Distinct(a) && Distinct(b) && forall x :: x in b ==> x !in a
    ensures Distinct(a + b)
  {
    forall j, k | 0 <= j < k < |a + b| ensures (a + b)[j] != (a + b)[k] {
      if j < |a| <= k { assert b[k - |a|] in b; }
    }
  }

  lemma PathsAreInjective(s: Space, paths: Paths, p: Path, q: Path)
    requires Valid(s, paths) && p in paths && q in paths && p != q
    ensures paths[p] != paths[q]
  {
  }

  /** `struct paging_desc`, together with the memory its tables live in. */
  class PageTables {
    const root: nat
    var tables: map<nat, seq<Entry>>
    var supply: seq<nat>
    ghost var paths: Paths

    function State(): Space
      reads this
    {
      Space(tables, root, supply)
    }

    ghost predicate Sound()
      reads this
    {
      Valid(State(), paths)
    }

    constructor (root: nat, supply: seq<nat>)
      requires root !in supply
      requires forall j, k :: 0 <= j < k < |supply| ==> supply[j] != supply[k]
      ensures Sound() && State() == Fresh(root, supply)
      ensures forall v :: Lookup(State(), v) == NULL_ENTRY
    {
      this.root := root;
      this.supply := supply;
      tables := map[root := ZeroTable()];
      paths := map[Root := root];
      new;
      FreshIsValid(root, supply);
    }

    /** Allocate and link the table below `table`'s slot unless the slot is taken. */
    method NextTable(table: nat, index: nat, ghost p: Path) returns (child: nat)
      requires Sound() && p in paths && paths[p] == table && Depth(p) < 3 && index < ENTRIES
      requires Down(p, index) in paths || |supply| > 0
      modifies this
      ensures (State(), paths) == AttachAt(old(State()), old(paths), p, index)
      ensures child == paths[Down(p, index)]
    {
      AttachKeepsTree(State(), paths, p, index);
      if tables[table][index] == NULL_ENTRY {
        var frame := supply[0];
        supply := supply[1..];
        tables := tables[table := tables[table][index := Link(frame)]][frame := ZeroTable()];
        paths := paths[Down(p, index) := frame];
      }
      child := tables[table][index].frame;
      SlotFollowsPath(State(), paths, p, index);
    }

    method Map(va: nat, phys: nat, flags: Flags)
      requires Sound() && Missing(paths, va) <= |supply|
      modifies this
      ensures Sound() && (State(), paths) == MapPage(old(State()), old(paths), va, phys, flags)
      ensures RangeGranted(old(State()), State(), va, phys, 1, flags)
    {
      hide Valid, Lookup, AttachAt, PageNumber, LeafEntry, RangeGranted;
      MapPageMaps(State(), paths, va, phys, flags);
      MapPageGrants(State(), paths, va, phys, flags);
      RootHasPath(State(), paths);
      var pdpt := NextTable(root, Pml4Index(va), Root);
      var pd := NextTable(pdpt, PdptIndex(va), PdptPath(va));
      var pt := NextTable(pd, PdIndex(va), PdPath(va));
      PathHasTable(State(), paths, PtPath(va));
      tables := tables[pt := tables[pt][PtIndex(va) := LeafEntry(phys, flags)]];
    }

    /** The C loop counts pages in an `int`. */
    method MapRange(virt: nat, phys: nat, count: nat, flags: Flags)
      requires Sound() && count <= 0x7FFF_FFFF
      requires Covered(paths, virt, count) || 3 * count <= |supply|
      modifies this
      ensures Sound() && RangeMapped(old(State()), State(), virt, phys, count, flags)
      ensures RangeGranted(old(State()), State(), virt, phys, count, flags)
      ensures Grew(old(State()), old(paths), State(), paths, 3 * count) && Covered(paths, virt, count)
      ensures old(Covered(paths, virt, count)) ==> paths == old(paths) && supply == old(supply)
    {
      hide Valid, MapPage, Lookup, RangeGranted, LeafEntry, Offset, PageNumber;
      ghost var premapped := Covered(paths, virt, count);
      var v, p := virt, phys;
      for i := 0 to count
        invariant v == virt + i * PAGE_SIZE && p == phys + i * PAGE_SIZE
        invariant Sound() && RangeMapped(old(State()), State(), virt, phys, i, flags)
        invariant Grew(old(State()), old(paths), State(), paths, 3 * i) && Covered(paths, virt, i)
        invariant premapped ==> paths == old(paths) && supply == old(supply)
      {
        ghost var s := State();
        if premapped { assert PtPath(v) in old(paths); }
        MapPageMaps(s, paths, v, p, flags);
        Map(v, p, flags);
        forall u ensures Lookup(State(), u) ==
            if Offset(u, virt) < i + 1 then LeafEntry(phys + Offset(u, virt) * PAGE_SIZE, flags)
            else Lookup(old(State()), u)
        {
          OffsetOfPage(u, virt, i);
        }
        v := v + PAGE_SIZE;
        p := p + PAGE_SIZE;
      }
      RangeIsGranted(old(State()), old(paths), State(), paths, virt, phys, count, flags);
    }

    /** Refuses unaligned or reversed arguments and then changes nothing. */
    method MapTo(virt: nat, phys: nat, physEnd: nat, flags: Flags) returns (status: Status)
      requires Sound() && physEnd - phys <= 0x7FFF_FFFF * PAGE_SIZE
      requires Covered(paths, virt, Pages(phys, physEnd)) || 3 * Pages(phys, physEnd) <= |supply|
      modifies this
      ensures Sound()
      ensures status == Ok <==>
              virt % PAGE_SIZE == 0 && phys % PAGE_SIZE == 0 && physEnd % PAGE_SIZE == 0 && phys <= physEnd
      ensures status == InvalidArgument ==> State() == old(State()) && paths == old(paths)
      ensures status == Ok ==> RangeMapped(old(State()), State(), virt, phys, Pages(phys, physEnd), flags)
      ensures status == Ok ==> RangeGranted(old(State()), State(), virt, phys, Pages(phys, physEnd), flags)
      ensures status == Ok ==> Covered(paths, virt, Pages(phys, physEnd))
      ensures Grew(old(State()), old(paths), State(), paths, 3 * Pages(phys, physEnd))
    {
      if virt % PAGE_SIZE != 0 {
        return InvalidArgument;
      }
      if phys % PAGE_SIZE != 0 {
        return InvalidArgument;
      }
      if physEnd % PAGE_SIZE != 0 {
        return InvalidArgument;
      }
      if physEnd < phys {
        return InvalidArgument;
      }
      var total := (physEnd - phys) / PAGE_SIZE;
      MapRange(virt, phys, total, flags);
      status := Ok;
    }

    /**
     `paging_desc_entry_free`: hands the tables below and including `table` to `kfree`,
     in that order.  `at` names the freed tables by their paths.
     */
    method FreeTable(table: nat, level: nat, ghost p: Path) returns (freed: seq<nat>, ghost at: seq<Path>)
      requires Sound() && p in paths && paths[p] == table && 1 <= level <= 3 && Depth(p) + level == 4
      ensures |freed| == |at| && forall k :: 0 <= k < |at| ==> at[k] in paths && freed[k] == paths[at[k]]
      ensures Distinct(at) && forall q :: q in at <==> Reached(State(), paths, p, q)
      decreases level, 1
    {
      hide Valid;
      PathHasTable(State(), paths, p);
      freed, at := [], [];
      if tables[table][0] == NULL_ENTRY {
        forall q ensures !Reached(State(), paths, p, q) {
          if Reached(State(), paths, p, q) { ReachedIsBelow(State(), paths, p, q); }
        }
        return;
      }
      if level > 1 {
        freed, at := FreeChildren(table, level, p);
      }
      forall q ensures q in at + [p] <==> Reached(State(), paths, p, q) {
        if q != p {
          PathDepth(State(), paths, q);
          ReachedThroughChild(State(), paths, p, q);
          forall j: nat | j < ENTRIES && Reached(State(), paths, Down(p, j), q)
            ensures Above(q, Depth(p) + 1) == Down(p, j)
          {
            ReachedIsBelow(State(), paths, Down(p, j), q);
          }
        }
      }
      freed, at := freed + [table], at + [p];
    }

    /** `paging_desc_free`: the root goes last, without a test of its slot 0. */
    method Free() returns (freed: seq<nat>)
      requires Sound()
      ensures Distinct(freed) && freed != [] && freed[|freed| - 1] == root
      ensures forall q :: q in paths ==> (paths[q] in freed <==> Torn(State(), paths, q))
      ensures forall f :: f in freed ==> exists q :: q in paths && paths[q] == f
    {
      hide Valid, Reached;
      ghost var at: seq<Path>;
      RootHasPath(State(), paths);
      freed, at := FreeChildren(root, 4, Root);
      DistinctConcat(at, [Root]);
      freed, at := freed + [root], at + [Root];
      forall j, k | 0 <= j < k < |freed| ensures freed[j] != freed[k] {
        PathsAreInjective(State(), paths, at[j], at[k]);
      }
      forall q | q in paths ensures paths[q] in freed <==> q in at {
        if q !in at {
          forall k | 0 <= k < |at| ensures freed[k] != paths[q] { PathsAreInjective(State(), paths, at[k], q); }
        }
      }
    }

    /** The loop over a table's 512 slots, shared by the root and the lower levels. */
    method FreeChildren(table: nat, level: nat, ghost p: Path) returns (freed: seq<nat>, ghost at: seq<Path>)
      requires Sound() && p in paths && paths[p] == table && 2 <= level <= 4 && Depth(p) + level == 4
      ensures |freed| == |at| && forall k :: 0 <= k < |at| ==> at[k] in paths && freed[k] == paths[at[k]]
      ensures Distinct(at) && p !in at
      ensures forall q :: q in at <==> exists j: nat :: j < ENTRIES && Reached(State(), paths, Down(p, j), q)
      decreases level, 0
    {
      hide Valid, Reached;
      PathHasTable(State(), paths, p);
      freed, at := [], [];
      for i := 0 to ENTRIES
        invariant |freed| == |at| && forall k :: 0 <= k < |at| ==> at[k] in paths && freed[k] == paths[at[k]]
        invariant Distinct(at) && p !in at
        invariant forall q :: q in at <==> exists j: nat :: j < i && Reached(State(), paths, Down(p, j), q)
      {
        var entry := tables[table][i];
        SlotFollowsPath(State(), paths, p, i);
        ChildSubtree(State(), paths, p, i);
        if entry != NULL_ENTRY {
          var childFreed, childAt := FreeTable(entry.frame, level - 1, Down(p, i));
          DistinctConcat(at, childAt);
          freed, at := freed + childFreed, at + childAt;
        }
      }
    }
  }

  function Pages(phys: nat, physEnd: nat): nat {
    if physEnd < phys then 0 else (physEnd - phys) / PAGE_SIZE
  }
}
