/** bootloader/paging.c: two-level page tables that behave like a finite map from pages to frames. */
module Paging {
  import opened Basics

  // ----- page table entries -----

  /** BiCreatePte */
  function CreatePte(phys: nat): (pte: nat)
    ensures pte != 0
  {
    phys / 4096 * 32 + 0x17
  }

  /** BiDecodePte */
  function DecodePte(pte: nat): (phys: nat)
    ensures phys < WORD32
  {
    pte / 32 % 0x10_0000 * 4096
  }

  /** Decoding gives back the frame, whatever the offset in the page was. */
  lemma {:induction false} DecodeCreated(phys: nat)
    requires phys < WORD32
    ensures DecodePte(CreatePte(phys)) == phys / 4096 * 4096 && CreatePte(phys) < WORD32
  {
    assert (phys / 4096 * 32 + 0x17) / 32 == phys / 4096;
  }

  /** The shifts and masks of the code compute the same words. */
  lemma {:induction false} PteBits(word: bv32)
    ensures ((word >> 12) << 5) | 0x17 == (word / 4096) * 32 + 0x17
    ensures ((word >> 5) & 0xf_ffff) << 12 == ((word / 32) % 0x10_0000) * 4096
    ensures (word >> 22) & 0x3ff == word / 0x40_0000 && (word >> 12) & 0x3ff == (word / 4096) % 1024
  {
  }

  /** BiPteIndex for the top level and for the bottom level. */
  function TopIndex(virt: nat): nat {
    virt / 0x40_0000
  }

  function LowIndex(virt: nat): (i: nat)
    ensures i < 1024
  {
    virt / 4096 % 1024
  }

  lemma {:induction false} IndexesArePage(virt: nat)
    ensures TopIndex(virt) * 1024 + LowIndex(virt) == virt / 4096
  {
    assert virt / 0x40_0000 == virt / 4096 / 1024;
  }

  // ----- the tables -----

  type Table = map<nat, nat>

  function Entry(tables: map<nat, Table>, table: nat, i: nat): nat {
    if table in tables && i in tables[table] then tables[table][i] else 0
  }

  function Stored(tables: map<nat, Table>, table: nat, i: nat, pte: nat): map<nat, Table> {
    tables[table := (if table in tables then tables[table] else map[])[i := pte]]
  }

  /** The second-level table for a page, or 0. */
  function TableOf(tables: map<nat, Table>, top: nat, i: nat): nat {
    var pte := Entry(tables, top, i);
    if pte == 0 then 0 else DecodePte(pte)
  }

  /** What walking the tables finds for a page. */
  function WalkPage(tables: map<nat, Table>, top: nat, page: nat): nat {
    var table := TableOf(tables, top, page / 1024);
    if table == 0 then 0 else Entry(tables, table, page % 1024)
  }

  predicate FreePage(tables: map<nat, Table>, p: nat) {
    0 < p < WORD32 && p % 4096 == 0 && p !in tables
  }

  predicate Differ(free: seq<nat>, i: nat, j: nat)
    requires i < |free| && j < |free|
  {
    free[i] != free[j]
  }

  /** The pages the heap will hand out are whole pages, different from each other and from all tables. */
  ghost predicate FreeOk(tables: map<nat, Table>, free: seq<nat>) {
    && (forall i {:trigger FreePage(tables, free[i])} | 0 <= i < |free| :: FreePage(tables, free[i]))
    && (forall i, j {:trigger Differ(free, i, j)} | 0 <= i < j < |free| :: Differ(free, i, j))
  }

  /** A top entry is empty or points to a second-level table. */
  predicate TopOk(tables: map<nat, Table>, top: nat, i: nat) {
    TableOf(tables, top, i) != 0 ==> TableOf(tables, top, i) in tables && TableOf(tables, top, i) != top
  }

  /** No two top entries share a table. */
  predicate NoAlias(tables: map<nat, Table>, top: nat, i: nat, j: nat) {
    TableOf(tables, top, i) != 0 ==> TableOf(tables, top, i) != TableOf(tables, top, j)
  }

  /** A top entry is zero or was created for a table. */
  predicate TopEntry(tables: map<nat, Table>, top: nat, i: nat) {
    Entry(tables, top, i) != 0 ==>
      TableOf(tables, top, i) != 0 && Entry(tables, top, i) == CreatePte(TableOf(tables, top, i))
  }

  ghost predicate TablesOk(tables: map<nat, Table>, top: nat) {
    && top in tables
    && (forall i: nat {:trigger TopOk(tables, top, i)} :: TopOk(tables, top, i))
    && (forall i: nat, j: nat {:trigger NoAlias(tables, top, i, j)} | i != j :: NoAlias(tables, top, i, j))
    && (forall i: nat {:trigger TopEntry(tables, top, i)} :: TopEntry(tables, top, i))
  }

  /** Walking the tables for a page finds its entry in the map. */
  predicate ViewAt(tables: map<nat, Table>, top: nat, view: map<nat, nat>, page: nat) {
    WalkPage(tables, top, page) == if page in view then CreatePte(view[page]) else 0
  }

  ghost predicate Refines(tables: map<nat, Table>, top: nat, view: map<nat, nat>) {
    forall page: nat {:trigger ViewAt(tables, top, view, page)} :: ViewAt(tables, top, view, page)
  }

  /** Frames are whole pages. */
  ghost predicate FramesOk(view: map<nat, nat>) {
    forall p | p in view :: view[p] < WORD32 && view[p] % 4096 == 0
  }

  // ----- what the processor finds -----

  /** The five flags of an entry, from the lowest bit on, and the bits above the page number. */
  datatype Flags = Flags(v: bool, w: bool, k: bool, n: bool, g: bool, available: nat)

  const MAPPED := Flags(true, true, true, false, true, 0)

  function FlagsOf(pte: nat): Flags {
    Flags(pte % 2 == 1, pte / 2 % 2 == 1, pte / 4 % 2 == 1, pte / 8 % 2 == 1, pte / 16 % 2 == 1, pte / 0x200_0000)
  }

  /** Section "Page Tables" of the boot protocol: bits 22 to 31 of an address choose an entry of the root, bits 12 to 21
      one of the table it leads to. Above its five flags an entry holds the number of a page. */
  function Upper(tables: map<nat, Table>, top: nat, virt: nat): nat {
    Entry(tables, top, virt / 0x40_0000)
  }

  function Lower(tables: map<nat, Table>, top: nat, virt: nat): nat {
    var upper := Upper(tables, top, virt);
    if upper == 0 then 0 else Entry(tables, upper / 0x20 % 0x10_0000 * 0x1000, virt / 0x1000 % 0x400)
  }

  function Translate(tables: map<nat, Table>, top: nat, virt: nat): Option<nat> {
    var lower := Lower(tables, top, virt);
    if Upper(tables, top, virt) % 2 == 0 || lower % 2 == 0 then None
    else Some(lower / 0x20 % 0x10_0000 * 0x1000 + virt % 0x1000)
  }

  lemma {:induction false} CreatedFlags(phys: nat, pte: nat)
    requires phys < WORD32 && pte == CreatePte(phys)
    ensures FlagsOf(pte) == MAPPED
  {
    FlagBits(phys / 4096, pte);
  }

  lemma {:induction false} FlagBits(n: nat, pte: nat)
    requires n < 0x10_0000 && pte == 32 * n + 0x17
    ensures FlagsOf(pte) == MAPPED
  {
    assert pte / 2 == 16 * n + 11;
    assert pte / 4 == 8 * n + 5;
    assert pte / 8 == 4 * n + 2;
    assert pte / 16 == 2 * n + 1;
  }

  lemma {:induction false} WalkIs(tables: map<nat, Table>, top: nat, virt: nat, page: nat, i: nat)
    requires page == virt / 4096 && i == page / 1024 && TopEntry(tables, top, i)
    ensures Upper(tables, top, virt) == Entry(tables, top, i) && Lower(tables, top, virt) == WalkPage(tables, top, page)
  {
    assert virt / 0x40_0000 == i;
  }

  /** The processor translates exactly the mapped addresses, to the frame that was mapped. Every entry it meets is zero,
      or has the flags V, W, K and G set, and N and the available bits clear. */
  lemma {:induction false} Translates(tables: map<nat, Table>, top: nat, view: map<nat, nat>, virt: nat, page: nat)
    requires TablesOk(tables, top) && Refines(tables, top, view) && FramesOk(view) && page == virt / 4096
    ensures Translate(tables, top, virt) == if page in view then Some(view[page] + virt % 4096) else None
    ensures Upper(tables, top, virt) == 0 || FlagsOf(Upper(tables, top, virt)) == MAPPED
    ensures Lower(tables, top, virt) == 0 || FlagsOf(Lower(tables, top, virt)) == MAPPED
  {
    var i := page / 1024;
    WalkIs(tables, top, virt, page, i);
    assert TopEntry(tables, top, i) && ViewAt(tables, top, view, page);
    if Entry(tables, top, i) != 0 {
      CreatedFlags(TableOf(tables, top, i), Entry(tables, top, i));
    }
    if page in view {
      CreatedFlags(view[page], CreatePte(view[page]));
      DecodeCreated(view[page]);
    }
  }

  /** Creating an empty second-level table changes no mapping. */
  lemma {:induction false} TableAdded(tables: map<nat, Table>, top: nat, free: seq<nat>, view: map<nat, nat>, i: nat)
    requires TablesOk(tables, top) && FreeOk(tables, free) && free != [] && Refines(tables, top, view)
    requires TableOf(tables, top, i) == 0
    ensures var tables' := Stored(tables[free[0] := map[]], top, i, CreatePte(free[0]));
            && TablesOk(tables', top) && FreeOk(tables', free[1..]) && Refines(tables', top, view)
            && TableOf(tables', top, i) == free[0]
  {
    var page := free[0];
    assert FreePage(tables, page) && TopEntry(tables, top, i);
    DecodeCreated(page);
    assert page / 4096 * 4096 == page;
    var tables' := Stored(tables[page := map[]], top, i, CreatePte(page));
    forall j: nat ensures TableOf(tables', top, j) == if j == i then page else TableOf(tables, top, j) {
    }
    forall j: nat ensures TopOk(tables', top, j) && TopEntry(tables', top, j) {
      assert TopOk(tables, top, j) && TopEntry(tables, top, j);
    }
    forall j: nat, k: nat | j != k ensures NoAlias(tables', top, j, k) {
      assert NoAlias(tables, top, j, k) && TopOk(tables, top, j) && TopOk(tables, top, k);
    }
    forall j | 0 <= j < |free| - 1 ensures FreePage(tables', free[1..][j]) {
      assert FreePage(tables, free[j + 1]) && Differ(free, 0, j + 1);
    }
    forall j, k | 0 <= j < k < |free| - 1 ensures Differ(free[1..], j, k) {
      assert Differ(free, j + 1, k + 1);
    }
    forall p: nat ensures ViewAt(tables', top, view, p) {
      assert ViewAt(tables, top, view, p) && TopOk(tables, top, p / 1024);
    }
  }

  /** Storing an entry in a second-level table changes one mapping and nothing else. */
  lemma {:induction false} EntryStored(tables: map<nat, Table>, top: nat, free: seq<nat>, view: map<nat, nat>,
                                       page: nat, table: nat, phys: nat)
    requires TablesOk(tables, top) && FreeOk(tables, free) && Refines(tables, top, view)
    requires table != 0 && table == TableOf(tables, top, page / 1024)
    ensures var tables' := Stored(tables, table, page % 1024, CreatePte(phys));
            TablesOk(tables', top) && FreeOk(tables', free) && Refines(tables', top, view[page := phys])
  {
    var tables' := Stored(tables, table, page % 1024, CreatePte(phys));
    var view' := view[page := phys];
    assert TopOk(tables, top, page / 1024);
    forall i: nat ensures TableOf(tables', top, i) == TableOf(tables, top, i) {
    }
    forall i: nat ensures TopOk(tables', top, i) && TopEntry(tables', top, i) {
      assert TopOk(tables, top, i) && TopEntry(tables, top, i);
    }
    forall i: nat, j: nat | i != j ensures NoAlias(tables', top, i, j) {
      assert NoAlias(tables, top, i, j);
    }
    forall i | 0 <= i < |free| ensures FreePage(tables', free[i]) {
      assert FreePage(tables, free[i]);
    }
    forall p: nat ensures ViewAt(tables', top, view', p) {
      assert ViewAt(tables, top, view, p);
      PageSplits(p, page);
      assert p / 1024 != page / 1024 ==> NoAlias(tables, top, page / 1024, p / 1024);
    }
  }

  lemma {:induction false} PageSplits(p: nat, q: nat)
    ensures p / 1024 == q / 1024 && p % 1024 == q % 1024 <==> p == q
  {
  }

  /** Tables are only ever made of pages that were free. */
  ghost predicate OnlyFromFree(tables: map<nat, Table>, free: seq<nat>, tables': map<nat, Table>, free': seq<nat>) {
    && (forall t | t in tables' :: t in tables || t in free)
    && (forall p | p in free' :: p in free)
  }

  class PageTables {
    const top: nat
    var tables: map<nat, Table>
    var free: seq<nat>
    ghost var view: map<nat, nat>

    /** The tables refine the map from page numbers to frame addresses, never share a second-level
        table, and are disjoint from every page still to be handed out. */
    ghost predicate Valid()
      reads this
    {
      TablesOk(tables, top) && FreeOk(tables, free) && Refines(tables, top, view) && FramesOk(view)
    }

    constructor (top: nat, free: seq<nat>)
      requires FreeOk(map[top := map[]], free)
      ensures Valid() && view == map[] && this.free == free
    {
      this.top, this.free := top, free;
      tables, view := map[top := map[]], map[];
    }

    /** A page from the heap. It crashes when there is none left. */
    method AllocatePage() returns (page: nat, crashed: bool)
      requires Valid()
      modifies `free
      ensures crashed <==> old(free) == []
      ensures !crashed ==> page == old(free)[0] && free == old(free)[1..] && FreePage(tables, page)
      ensures !crashed ==> forall i | 0 <= i < |free| :: free[i] != page
      ensures Valid()
    {
      if free == [] {
        return 0, true;
      }
      page, crashed := free[0], false;
      assert FreePage(tables, free[0]);
      forall i | 0 <= i < |free| - 1 ensures FreePage(tables, free[1..][i]) && free[1..][i] != free[0] {
        assert FreePage(tables, free[i + 1]) && Differ(free, 0, i + 1);
      }
      forall i, j | 0 <= i < j < |free| - 1 ensures Differ(free[1..], i, j) {
        assert Differ(free, i + 1, j + 1);
      }
      free := free[1..];
    }

    /** BiGetTable */
    method GetTable(virt: nat, allowCreation: bool) returns (table: nat, crashed: bool)
      requires Valid() && virt < WORD32
      modifies `tables, `free
      ensures !crashed ==> Valid() && table != 0 && table == TableOf(tables, top, TopIndex(virt))
      ensures !allowCreation ==> tables == old(tables) && free == old(free)
      ensures !allowCreation ==> (crashed <==> TableOf(tables, top, TopIndex(virt)) == 0)
      ensures crashed && allowCreation ==> old(free) == []
      ensures |free| + 1 >= |old(free)|
      ensures OnlyFromFree(old(tables), old(free), tables, free)
    {
      crashed := false;
      var index := TopIndex(virt);
      var entry := Entry(tables, top, index);
      assert TopEntry(tables, top, index);
      if entry != 0 {
        table := DecodePte(entry);
      } else if allowCreation {
        if free == [] {
          return 0, true;
        }
        TableAdded(tables, top, free, view, index);
        assert FreePage(tables, free[0]);
        table := free[0];
        free := free[1..];
        tables := tables[table := map[]];
        tables := Stored(tables, top, index, CreatePte(table));
      } else {
        table, crashed := 0, true;
      }
    }

    /** BlMapPage: the last mapping of a page counts, and no other page is affected. */
    method MapPage(virt: nat, phys: nat) returns (crashed: bool)
      requires Valid() && virt < WORD32 && phys < WORD32
      modifies this
      ensures crashed ==> old(free) == []
      ensures |free| + 1 >= |old(free)|
      ensures !crashed ==> Valid() && view == old(view)[virt / 4096 := phys / 4096 * 4096]
      ensures OnlyFromFree(old(tables), old(free), tables, free)
    {
      var table;
      table, crashed := GetTable(virt, true);
      if crashed {
        return;
      }
      IndexesArePage(virt);
      TopIsPage(virt);
      assert CreatePte(phys) == CreatePte(phys / 4096 * 4096);
      EntryStored(tables, top, free, view, virt / 4096, table, phys / 4096 * 4096);
      assert TopOk(tables, top, TopIndex(virt));
      tables := Stored(tables, table, LowIndex(virt), CreatePte(phys));
      view := view[virt / 4096 := phys / 4096 * 4096];
    }

    /** BlGetMapping: the frame mapped last, plus the offset in the page. It crashes for unmapped pages. */
    method GetMapping(virt: nat) returns (phys: nat, crashed: bool)
      requires Valid() && virt < WORD32
      modifies `tables, `free
      ensures crashed <==> virt / 4096 !in view
      ensures !crashed ==> phys == view[virt / 4096] + virt % 4096
      ensures Valid() && tables == old(tables) && free == old(free)
    {
      var table;
      table, crashed := GetTable(virt, false);
      TopIsPage(virt);
      assert ViewAt(tables, top, view, virt / 4096);
      if crashed {
        return 0, true;
      }
      var pte := Entry(tables, table, LowIndex(virt));
      if pte == 0 {
        return 0, true;
      }
      DecodeCreated(view[virt / 4096]);
      phys, crashed := DecodePte(pte) + virt % 4096, false;
    }
  }

  lemma {:induction false} TopIsPage(virt: nat)
    ensures TopIndex(virt) == virt / 4096 / 1024 && LowIndex(virt) == virt / 4096 % 1024
  {
  }

  // ----- runs -----

  /** `BlMapPage(virt, phys)` */
  datatype Mapping = Mapping(virt: nat, phys: nat)

  /** The map that a run of BlMapPage leaves. */
  function ViewOf(run: seq<Mapping>): map<nat, nat> {
    if run == [] then map[]
    else
      var last := run[|run| - 1];
      ViewOf(run[..|run| - 1])[last.virt / 4096 := last.phys / 4096 * 4096]
  }

  /** `i` is the last mapping of `page` in the run. */
  ghost predicate LastFor(run: seq<Mapping>, i: nat, page: nat) {
    i < |run| && run[i].virt / 4096 == page && forall j | i < j < |run| :: run[j].virt / 4096 != page
  }

  /** A page is mapped exactly when some call mapped it, and then to the frame of the last such call. */
  lemma {:induction false} LastMappingCounts(run: seq<Mapping>, page: nat)
    ensures page in ViewOf(run) <==> exists i: nat :: LastFor(run, i, page)
    ensures forall i: nat | LastFor(run, i, page) :: page in ViewOf(run) && ViewOf(run)[page] == run[i].phys / 4096 * 4096
  {
    if run != [] {
      var n := |run| - 1;
      LastMappingCounts(run[..n], page);
      if run[n].virt / 4096 == page {
        assert LastFor(run, n, page);
        forall i: nat | LastFor(run, i, page) ensures i == n {
        }
      } else {
        if page in ViewOf(run) {
          var i: nat :| LastFor(run[..n], i, page);
          assert LastFor(run, i, page);
        }
        forall i: nat | LastFor(run, i, page) ensures LastFor(run[..n], i, page) {
        }
      }
    }
  }
}
