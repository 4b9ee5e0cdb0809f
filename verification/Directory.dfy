/** The code of kernel/paging/directory.cpp and kernel/paging/table.cpp over two-level page tables that are
    themselves kept in physical frames, with kernel/allocator/mod.cpp's reference counts.

    The ghost field `mem` is the flat picture of module Frames; Valid ties the directory and table arrays
    to it, and every method is proved to have exactly the effect of the Frames function of its name. */
module Directory {
  import opened Basics
  import opened Frames

  ghost function EntryOf(pages: map<Slot, Pte>, s: Slot): Option<Pte> {
    if s in pages then Some(pages[s]) else None
  }

  /** The page that entry j of the table for slot t maps. */
  ghost function PageOf(t: Slot, j: nat): Slot {
    Slot(t.dir, t.index * ENTRIES + j)
  }

  ghost predicate DirsMatch(dirs: map<nat, seq<Option<nat>>>, owner: map<nat, Owner>, tabs: map<Slot, nat>) {
    && (forall d :: d in dirs <==> d in owner && owner[d].Directory?)
    && (forall d :: d in dirs ==> |dirs[d]| == USER_TABLES)
    && (forall d, i: nat :: d in dirs && i < USER_TABLES ==>
          dirs[d][i] == if Slot(d, i) in tabs then Some(tabs[Slot(d, i)]) else None)
  }

  ghost predicate TablesMatch(tables: map<nat, seq<Option<Pte>>>, owner: map<nat, Owner>, pages: map<Slot, Pte>) {
    && (forall t :: t in tables <==> t in owner && owner[t].Table?)
    && (forall t :: t in tables ==> |tables[t]| == ENTRIES)
    && (forall t, j: nat :: t in tables && j < ENTRIES ==> tables[t][j] == EntryOf(pages, PageOf(owner[t].slot, j)))
  }

  /** Writing one table entry changes one page of the flat picture. */
  lemma TableWrite(tables: map<nat, seq<Option<Pte>>>, owner: map<nat, Owner>, tabs: map<Slot, nat>,
                   pages: map<Slot, Pte>, pages': map<Slot, Pte>, t: nat, j: nat, o: Option<Pte>)
    requires TablesMatch(tables, owner, pages) && TablesLinked(owner, tabs) && t in tables && j < ENTRIES
    requires o == EntryOf(pages', PageOf(owner[t].slot, j))
    requires forall s :: s != PageOf(owner[t].slot, j) ==> EntryOf(pages', s) == EntryOf(pages, s)
    ensures TablesMatch(tables[t := tables[t][j := o]], owner, pages')
  {
  }

  /** The walk: the table of page p in directory d, if present, and its entry. */
  lemma Walk(dirs: map<nat, seq<Option<nat>>>, tables: map<nat, seq<Option<Pte>>>, m: Mem, d: nat, p: nat)
    requires DirsMatch(dirs, m.owner, m.tabs) && TablesMatch(tables, m.owner, m.pages) && Held(m)
    requires d in dirs && p < USER_PAGES
    ensures |dirs[d]| == USER_TABLES
    ensures dirs[d][p / ENTRIES].Some? <==> TableOf(Slot(d, p)) in m.tabs
    ensures dirs[d][p / ENTRIES].None? ==> Slot(d, p) !in m.pages
    ensures dirs[d][p / ENTRIES].Some? ==>
              var t := dirs[d][p / ENTRIES].value;
              && t in tables && |tables[t]| == ENTRIES && t in m.owner && m.owner[t] == Table(Slot(d, p / ENTRIES))
              && PageOf(m.owner[t].slot, p % ENTRIES) == Slot(d, p)
              && tables[t][p % ENTRIES] == EntryOf(m.pages, Slot(d, p))
  {
  }

  class PhysicalMemory {
    var used: seq<bool>
    var ref: seq<nat>
    var dirs: map<nat, seq<Option<nat>>>
    var tables: map<nat, seq<Option<Pte>>>
    var data: map<nat, seq<Byte>>
    ghost var mem: Mem

    ghost predicate Valid()
      reads this
    {
      && mem.used == used && mem.ref == ref && mem.data == data
      && DirsMatch(dirs, mem.owner, mem.tabs)
      && TablesMatch(tables, mem.owner, mem.pages)
    }

    /** n free frames. */
    constructor (n: nat)
      ensures Valid() && Inv(mem) && mem.used == seq(n, _ => false) && mem.owner == map[] && mem.pages == map[]
    {
      used, ref := seq(n, _ => false), seq(n, _ => 0);
      dirs, tables, data := map[], map[], map[];
      mem := Mem(seq(n, _ => false), seq(n, _ => 0), map[], map[], map[], map[]);
      new;
      assert forall f: nat :: Mappers(mem.pages, f) == {};
      assert Dirs(mem.owner) == {};
    }

    /** The pool scan, then the count set to one. */
    method TakeFrame() returns (r: Option<nat>)
      requires Valid() && Fit(mem)
      modifies this
      ensures Valid()
      ensures r.None? <==> AllocFrame(old(mem)).None?
      ensures r.None? ==> mem == old(mem)
      ensures r.Some? ==> AllocFrame(old(mem)) == Some((mem, r.value))
      ensures dirs == old(dirs) && tables == old(tables)
    {
      var i := 0;
      while i < |used|
        invariant i <= |used| && mem == old(mem) && used == old(used) && Valid()
        invariant dirs == old(dirs) && tables == old(tables)
        invariant FirstClear(used) == FirstClear(used, i)
      {
        if !used[i] {
          mem := AllocFrame(mem).value.0;
          used := used[i := true];
          ref := ref[i := 1];
          return Some(i);
        }
        i := i + 1;
      }
      return None;
    }

    method RetainFrame(f: nat)
      requires Valid() && Fit(mem) && f < |ref|
      modifies this
      ensures Valid() && mem == Retain(old(mem), f) && dirs == old(dirs) && tables == old(tables) && Fit(mem)
    {
      ref := ref[f := (ref[f] + 1) % REF_WRAP];
      mem := Retain(mem, f);
    }

    /** physicalFrameRelease on the real fields alone; the ghost picture is the caller's to move. */
    method Lower(f: nat)
      requires f < |ref| == |used|
      modifies this`ref, this`used, this`data
      ensures ref == old(ref)[f := (old(ref)[f] + REF_WRAP - 1) % REF_WRAP]
      ensures used == if ref[f] == 0 then old(used)[f := false] else old(used)
      ensures data == if ref[f] == 0 then old(data) - {f} else old(data)
    {
      ref := ref[f := (ref[f] + REF_WRAP - 1) % REF_WRAP];
      if ref[f] == 0 {
        used := used[f := false];
        data := data - {f};
      }
    }

    method ReleaseFrame(f: nat)
      requires Valid() && Fit(mem) && f < |ref|
      modifies this
      ensures Valid() && mem == Release(old(mem), f) && dirs == old(dirs) && tables == old(tables) && Fit(mem)
    {
      Lower(f);
      mem := Release(mem, f);
    }

    /** ensure: a cleared table for directory entry i. */
    method Ensure(d: nat, i: nat) returns (ok: bool)
      requires Valid() && Held(mem) && Fit(mem) && d in dirs && i < USER_TABLES
      modifies this
      ensures Valid() && ok == EnsureTable(old(mem), Slot(d, i)).Some?
      ensures mem == if ok then EnsureTable(old(mem), Slot(d, i)).value else old(mem)
      ensures dirs.Keys == old(dirs).Keys
    {
      hide Held, FirstClear, DirsMatch, TablesMatch;
      DirEntry(dirs, mem, d, i);
      if dirs[d][i].Some? {
        return true;
      }
      ghost var m := mem;
      var f := TakeFrame();
      if f.None? {
        return false;
      }
      HeldFresh(m, f.value);
      NewTableMatches(dirs, tables, m, Slot(d, i), f.value);
      tables := tables[f.value := seq(ENTRIES, _ => None)];
      dirs := dirs[d := dirs[d][i := f]];
      mem := mem.(owner := mem.owner[f.value := Table(Slot(d, i))], tabs := mem.tabs[Slot(d, i) := f.value]);
      return true;
    }

    /** alloc: a zeroed page at p, over whatever was there. */
    method AllocUserPage(d: nat, p: nat, writable: bool) returns (ok: bool)
      requires Valid() && Held(mem) && Fit(mem) && d in dirs && p < USER_PAGES
      modifies this
      ensures ok == AllocPage(old(mem), Slot(d, p), writable).Some?
      ensures ok ==> Valid() && Held(mem) && mem == AllocPage(old(mem), Slot(d, p), writable).value
      ensures dirs.Keys == old(dirs).Keys
    {
      hide Held, FirstClear, DirsMatch, TablesMatch, Zeros;
      DirOwner(dirs, mem, d);
      ok := Ensure(d, p / ENTRIES);
      if !ok {
        return;
      }
      EnsureTableHeld(old(mem), Slot(d, p / ENTRIES));
      ghost var m := mem;
      var f := TakeFrame();
      if f.None? {
        return false;
      }
      Walk(dirs, tables, m, d, p);
      var t := dirs[d][p / ENTRIES].value;
      MapPage(dirs, tables, m, d, p, t, Some(Pte(f.value, writable, false)));
      tables := tables[t := tables[t][p % ENTRIES := Some(Pte(f.value, writable, false))]];
      data := data[f.value := Zeros()];
      mem := WithPage(mem, Slot(d, p), Pte(f.value, writable, false), Zeros());
      AllocPageHeld(old(mem), Slot(d, p), writable);
    }

    /** Writes the frame of page p through a mapping of the kernel's. */
    method Overwrite(d: nat, p: nat, bytes: seq<Byte>)
      requires Valid() && Held(mem) && d in dirs && p < USER_PAGES && Slot(d, p) in mem.pages
      modifies this
      ensures Valid() && mem == FillPage(old(mem), Slot(d, p), bytes) && dirs == old(dirs)
    {
      hide Held, DirsMatch, TablesMatch;
      Walk(dirs, tables, mem, d, p);
      var t := dirs[d][p / ENTRIES].value;
      data := data[tables[t][p % ENTRIES].value.frame := bytes];
      mem := FillPage(mem, Slot(d, p), bytes);
    }

    /** freePage: clears a present entry and releases its frame. */
    method FreeUserPage(d: nat, p: nat)
      requires Valid() && Inv(mem) && Fit(mem) && d in dirs && p < USER_PAGES
      modifies this
      ensures Valid() && Fit(mem) && mem == FreePage(old(mem), Slot(d, p)) && dirs == old(dirs)
    {
      hide Inv, Held, DirsMatch, TablesMatch;
      InvHeld(mem);
      Walk(dirs, tables, mem, d, p);
      if dirs[d][p / ENTRIES].Some? {
        var t := dirs[d][p / ENTRIES].value;
        if tables[t][p % ENTRIES].Some? {
          ghost var m := mem;
          MapPage(dirs, tables, m, d, p, t, None);
          ReleaseFrame(tables[t][p % ENTRIES].value.frame);
          tables := tables[t := tables[t][p % ENTRIES := None]];
          mem := mem.(pages := m.pages - {Slot(d, p)});
        }
      }
    }

    /** handleCOW: whether the write fault on page p of d is resolved. */
    method ResolveWriteFault(d: nat, p: nat) returns (ok: bool, handled: bool)
      requires Valid() && Inv(mem) && Fit(mem) && d in dirs && p < USER_PAGES && HandleCow.requires(mem, Slot(d, p))
      modifies this
      ensures ok == HandleCow(old(mem), Slot(d, p)).Some?
      ensures ok ==> Valid() && HandleCow(old(mem), Slot(d, p)) == Some((mem, handled))
      ensures dirs == old(dirs)
    {
      hide Inv, Held, DirsMatch, TablesMatch, FirstClear;
      InvHeld(mem);
      Walk(dirs, tables, mem, d, p);
      if dirs[d][p / ENTRIES].None? {
        return true, false;
      }
      var t, j := dirs[d][p / ENTRIES].value, p % ENTRIES;
      if tables[t][j].None? || !tables[t][j].value.cow {
        return true, false;
      }
      var f := tables[t][j].value.frame;
      ghost var m := mem;
      if ref[f] == 1 {
        MapPage(dirs, tables, m, d, p, t, Some(Pte(f, true, false)));
        tables := tables[t := tables[t][j := Some(Pte(f, true, false))]];
        mem := mem.(pages := mem.pages[Slot(d, p) := Pte(f, true, false)]);
        return true, true;
      }
      var g := TakeFrame();
      if g.None? {
        return false, false;
      }
      MapPage(dirs, tables, m, d, p, t, Some(Pte(g.value, true, false)));
      mem := mem.(data := mem.data[g.value := mem.data[f]]);
      data := data[g.value := data[f]];
      ReleaseFrame(f);
      tables := tables[t := tables[t][j := Some(Pte(g.value, true, false))]];
      mem := mem.(pages := mem.pages[Slot(d, p) := Pte(g.value, true, false)]);
      return true, true;
    }

    /** The inner loop of forkCOW over the entries of table i. */
    method ShareTable(src: nat, dst: nat, i: nat)
      requires Valid() && Inv(mem) && Fit(mem) && src in dirs && dst in dirs && src != dst && i < USER_TABLES
      requires Slot(src, i) in mem.tabs && Slot(dst, i) in mem.tabs && Copied(mem, src, dst, i * ENTRIES)
      modifies this
      ensures Valid() && Inv(mem) && Fit(mem) && dirs == old(dirs) && Copied(mem, src, dst, (i + 1) * ENTRIES)
      ensures mem == ShareFrom(old(mem), src, dst, i * ENTRIES, (i + 1) * ENTRIES)
      ensures mem.tabs == old(mem).tabs && mem.owner == old(mem).owner
    {
      hide Inv, DirsMatch, TablesMatch, Copied, ShareEntry, Linked, PagesLinked;
      Lengths(mem);
      var end := (i + 1) * ENTRIES;
      var j := 0;
      while j < ENTRIES
        invariant j <= ENTRIES && Valid() && Inv(mem) && Fit(mem) && Linked(mem) && dirs == old(dirs)
        invariant Copied(mem, src, dst, i * ENTRIES + j)
        invariant mem.tabs == old(mem).tabs && mem.owner == old(mem).owner
        invariant ShareFrom(old(mem), src, dst, i * ENTRIES, end) == ShareFrom(mem, src, dst, i * ENTRIES + j, end)
      {
        var p := i * ENTRIES + j;
        assert p / ENTRIES == i && p % ENTRIES == j;
        CopiedNext(mem, src, dst, p);
        ShareEntryKeeps(mem, src, dst, p);
        Lengths(ShareEntry(mem, Slot(src, p), Slot(dst, p)));
        ShareOne(src, dst, p);
        j := j + 1;
      }
    }

    method ShareOne(src: nat, dst: nat, p: nat)
      requires Valid() && Inv(mem) && Fit(mem) && src in dirs && dst in dirs && src != dst && p < USER_PAGES
      requires TableOf(Slot(src, p)) in mem.tabs && TableOf(Slot(dst, p)) in mem.tabs && Slot(dst, p) !in mem.pages
      modifies this
      ensures Valid() && dirs == old(dirs) && Fit(mem)
      ensures mem == ShareEntry(old(mem), Slot(src, p), Slot(dst, p))
    {
      hide Inv, Held, DirsMatch, TablesMatch;
      InvHeld(mem);
      Walk(dirs, tables, mem, src, p);
      Walk(dirs, tables, mem, dst, p);
      var oldTable, newTable, j := dirs[src][p / ENTRIES].value, dirs[dst][p / ENTRIES].value, p % ENTRIES;
      if tables[oldTable][j].Some? {
        var e := Downgrade(tables[oldTable][j].value);
        ghost var m := mem;
        ShareWrites(tables, m, Slot(src, p), Slot(dst, p), oldTable, newTable, j, e);
        tables := tables[oldTable := tables[oldTable][j := Some(e)]];
        tables := tables[newTable := tables[newTable][j := Some(e)]];
        mem := mem.(pages := m.pages[Slot(src, p) := e][Slot(dst, p) := e]);
        RetainFrame(e.frame);
      }
    }

    /** A fresh directory with an empty user half. */
    method NewDirectory() returns (r: Option<nat>)
      requires Valid() && Inv(mem) && Fit(mem)
      modifies this
      ensures Valid() && r.Some? == NewDir(old(mem)).Some?
      ensures r.Some? ==> NewDir(old(mem)) == Some((mem, r.value)) && dirs.Keys == old(dirs).Keys + {r.value}
    {
      hide Inv, DirsMatch, TablesMatch, FirstClear;
      ghost var m := mem;
      r := TakeFrame();
      if r.Some? {
        FreshFrame(m, r.value);
        NewDirMatches(dirs, tables, m, r.value);
        dirs := dirs[r.value := seq(USER_TABLES, _ => None)];
        mem := mem.(owner := mem.owner[r.value := Directory]);
      }
    }

    /** The outer loop of forkCOW. */
    method CopyTables(src: nat, dst: nat) returns (ok: bool)
      requires Valid() && Inv(mem) && Fit(mem) && Linked(mem) && src in dirs && dst in dirs && src != dst
               && Copied(mem, src, dst, 0)
      modifies this
      ensures ok == ForkTables(old(mem), src, dst, 0).Some?
      ensures ok ==> Valid() && Inv(mem) && ForkTables(old(mem), src, dst, 0) == Some(mem)
    {
      hide Inv, DirsMatch, TablesMatch, Copied, ShareFrom, EnsureTable, Dirs, Linked, PagesLinked;
      var i := 0;
      while i < USER_TABLES
        invariant i <= USER_TABLES && Valid() && Inv(mem) && Fit(mem) && Linked(mem) && src in dirs && dst in dirs
        invariant Copied(mem, src, dst, i * ENTRIES)
        invariant ForkTables(old(mem), src, dst, 0) == ForkTables(mem, src, dst, i)
      {
        DirEntry(dirs, mem, src, i);
        DirOwner(dirs, mem, dst);
        if dirs[src][i].None? {
          NoTableNoPages(mem, src, dst, i);
        } else {
          ghost var m := mem;
          InvHeld(mem);
          ok := Ensure(dst, i);
          if !ok {
            return;
          }
          EnsureTableKeeps(m, Slot(dst, i));
          Lengths(mem);
          CopiedKept(m, mem, src, dst, i * ENTRIES);
          ShareTable(src, dst, i);
          Lengths(mem);
        }
        i := i + 1;
      }
      ok := true;
    }

    /** forkCOW: the new directory, or none when frames run out. */
    method Fork(src: nat) returns (r: Option<nat>)
      requires Valid() && Inv(mem) && Fit(mem) && src in dirs && |Dirs(mem.owner)| < MAX_DIRS
      modifies this
      ensures r.Some? <==> ForkCow(old(mem), src).Some?
      ensures r.Some? ==> Valid() && Inv(mem) && ForkCow(old(mem), src) == Some((mem, r.value))
    {
      hide Inv, DirsMatch, TablesMatch, Copied, NewDir, ForkTables, Dirs, Linked;
      DirOwner(dirs, mem, src);
      ghost var m := mem;
      r := NewDirectory();
      if r.None? {
        return;
      }
      NewDirKeeps(m);
      NewDirEmpty(m, mem, src, r.value);
      DirsOwned(m.owner, src);
      Lengths(mem);
      var ok := CopyTables(src, r.value);
      if !ok {
        return None;
      }
    }

    /** freeDangling and the release of table i: the entries are released where they are, and the whole
        table goes with its frame. */
    method FreeTable(d: nat, i: nat)
      requires Valid() && Inv(mem) && Fit(mem) && d in dirs && i < USER_TABLES && Slot(d, i) in mem.tabs
      modifies this
      ensures Valid() && dirs.Keys == old(dirs).Keys
      ensures var m1 := FreeFrom(old(mem), d, i * ENTRIES, (i + 1) * ENTRIES);
              && m1.tabs == old(mem).tabs && Slot(d, i) in m1.tabs && m1.tabs[Slot(d, i)] < |m1.ref|
              && mem == DropTable(m1, Slot(d, i))
    {
      hide Inv, DirsMatch, TablesMatch, PagesLinked, FreeFrom, DropTable;
      DirEntry(dirs, mem, d, i);
      var t := dirs[d][i].value;
      ghost var m := mem;
      TableRow(dirs, tables, m, d, i, t);
      ReleaseRow(tables[t], d, i);
      DropRowMatches(dirs, tables, m, mem.pages, d, i, t);
      DropRow(d, i, t);
    }

    /** The dangling-page loop over one table's entries. */
    method ReleaseRow(row: seq<Option<Pte>>, ghost d: nat, ghost i: nat)
      requires used == mem.used && ref == mem.ref && data == mem.data && Inv(mem) && Fit(mem) && |row| == ENTRIES
      requires forall j: nat :: j < ENTRIES ==> row[j] == EntryOf(mem.pages, Slot(d, i * ENTRIES + j))
      modifies this`ref, this`used, this`data, this`mem
      ensures used == mem.used && ref == mem.ref && data == mem.data && Inv(mem) && Fit(mem)
      ensures mem == FreeFrom(old(mem), d, i * ENTRIES, (i + 1) * ENTRIES)
      ensures mem.tabs == old(mem).tabs && mem.owner == old(mem).owner && |mem.ref| == |old(mem).ref|
      ensures RowGone(old(mem).pages, mem.pages, d, i * ENTRIES, (i + 1) * ENTRIES)
    {
      hide Inv, RowGone, FreePage, EntryOf;
      ghost var m := mem;
      ghost var end := (i + 1) * ENTRIES;
      RowGoneStart(m, d, i * ENTRIES);
      var j := 0;
      while j < ENTRIES
        invariant j <= ENTRIES && used == mem.used && ref == mem.ref && data == mem.data
        invariant Inv(mem) && Fit(mem) && mem.tabs == m.tabs && mem.owner == m.owner && |mem.ref| == |m.ref|
        invariant FreeFrom(m, d, i * ENTRIES, end) == FreeFrom(mem, d, i * ENTRIES + j, end)
        invariant RowGone(m.pages, mem.pages, d, i * ENTRIES, i * ENTRIES + j)
      {
        RowGoneStep(m, mem, d, i * ENTRIES, i * ENTRIES + j);
        FreePageKeeps(mem, Slot(d, i * ENTRIES + j));
        ReleaseEntry(row[j], Slot(d, i * ENTRIES + j));
        j := j + 1;
      }
    }

    method ReleaseEntry(o: Option<Pte>, ghost s: Slot)
      requires used == mem.used && ref == mem.ref && data == mem.data && Fit(mem) && o == EntryOf(mem.pages, s)
      modifies this`ref, this`used, this`data, this`mem
      ensures used == mem.used && ref == mem.ref && data == mem.data && Fit(mem) && mem == FreePage(old(mem), s)
    {
      if o.Some? {
        Lower(o.value.frame);
      }
      mem := FreePage(mem, s);
    }

    method DropRow(d: nat, i: nat, t: nat)
      requires used == mem.used && ref == mem.ref && data == mem.data && Fit(mem)
      requires d in dirs && i < |dirs[d]| && Slot(d, i) in mem.tabs && mem.tabs[Slot(d, i)] == t < |ref|
      requires DirsMatch(dirs[d := dirs[d][i := None]], mem.owner - {t}, mem.tabs - {Slot(d, i)})
      requires TablesMatch(tables - {t}, mem.owner - {t}, mem.pages)
      modifies this
      ensures Valid() && mem == DropTable(old(mem), Slot(d, i)) && dirs.Keys == old(dirs).Keys
    {
      hide DirsMatch, TablesMatch;
      tables := tables - {t};
      dirs := dirs[d := dirs[d][i := None]];
      Lower(t);
      mem := DropTable(mem, Slot(d, i));
    }

    /** freePageTables. */
    method FreeAllTables(d: nat)
      requires Valid() && Inv(mem) && Fit(mem) && TablesFit(mem) && d in dirs
      modifies this
      ensures Valid() && Inv(mem) && Fit(mem) && mem == FreeTables(old(mem), d, 0) && d in dirs
    {
      hide Inv, DirsMatch, TablesMatch, PagesLinked, Cleared, TablesFit, FreeFrom, DropTable, Linked;
      ghost var m := mem;
      NothingCleared(m, d);
      var i := 0;
      while i < USER_TABLES
        invariant i <= USER_TABLES && Valid() && Inv(mem) && Fit(mem) && TablesFit(mem) && d in dirs
                  && Cleared(mem, d, i)
        invariant FreeTables(m, d, 0) == FreeTables(mem, d, i)
      {
        DirEntry(dirs, mem, d, i);
        if dirs[d][i].Some? {
          FreeTableKeeps(mem, d, i);
          FreeTable(d, i);
          Lengths(mem);
          TablesInRange(mem);
        } else {
          ClearedSkip(mem, d, i);
        }
        i := i + 1;
      }
    }

    /** Releasing an address space: its tables, then the directory frame itself. */
    method Teardown(d: nat)
      requires Valid() && Inv(mem) && Fit(mem) && d in dirs
      modifies this
      ensures Destroy.requires(old(mem), d)
      ensures Valid() && Inv(mem) && mem == Destroy(old(mem), d)
    {
      hide Inv, DirsMatch, TablesMatch, PagesLinked, TablesFit, FreeTables, Linked;
      DirOwner(dirs, mem, d);
      DestroyKeeps(mem, d);
      TablesInRange(mem);
      FreeAllTables(d);
      DropDirMatches(dirs, tables, mem, d);
      dirs := dirs - {d};
      Lower(d);
      mem := DropOwned(mem, d);
    }
  }

  lemma NothingCleared(m: Mem, d: nat)
    ensures Cleared(m, d, 0)
  {
  }

  lemma DropDirMatches(dirs: map<nat, seq<Option<nat>>>, tables: map<nat, seq<Option<Pte>>>, m: Mem, d: nat)
    requires DirsMatch(dirs, m.owner, m.tabs) && TablesMatch(tables, m.owner, m.pages) && Inv(m) && d in dirs
    ensures d < |m.ref|
    ensures DirsMatch(dirs - {d}, m.owner - {d}, m.tabs)
    ensures TablesMatch(tables, m.owner - {d}, m.pages)
  {
    hide Counted, Mappers, Exclusive, Mapped, Pooled, Dirs, PagesLinked;
  }

  lemma TableRow(dirs: map<nat, seq<Option<nat>>>, tables: map<nat, seq<Option<Pte>>>, m: Mem, d: nat, i: nat, t: nat)
    requires DirsMatch(dirs, m.owner, m.tabs) && TablesMatch(tables, m.owner, m.pages) && Inv(m)
    requires d in dirs && i < USER_TABLES && Slot(d, i) in m.tabs && t == m.tabs[Slot(d, i)]
    ensures t in tables && |tables[t]| == ENTRIES && t < |m.ref| && t in m.owner && m.owner[t] == Table(Slot(d, i))
    ensures forall j: nat :: j < ENTRIES ==> tables[t][j] == EntryOf(m.pages, Slot(d, i * ENTRIES + j))
  {
    hide Counted, Mappers, Exclusive, Mapped, Pooled, Dirs, PagesLinked;
    forall j: nat | j < ENTRIES ensures tables[t][j] == EntryOf(m.pages, Slot(d, i * ENTRIES + j)) {
      assert PageOf(m.owner[t].slot, j) == Slot(d, i * ENTRIES + j);
    }
  }

  lemma DropRowMatches(dirs: map<nat, seq<Option<nat>>>, tables: map<nat, seq<Option<Pte>>>, m: Mem,
                       pages': map<Slot, Pte>, d: nat, i: nat, t: nat)
    requires DirsMatch(dirs, m.owner, m.tabs) && TablesMatch(tables, m.owner, m.pages) && Inv(m)
    requires d in dirs && i < USER_TABLES && Slot(d, i) in m.tabs && t == m.tabs[Slot(d, i)]
    requires RowGone(m.pages, pages', d, i * ENTRIES, (i + 1) * ENTRIES)
    ensures |dirs[d]| == USER_TABLES
    ensures DirsMatch(dirs[d := dirs[d][i := None]], m.owner - {t}, m.tabs - {Slot(d, i)})
    ensures TablesMatch(tables - {t}, m.owner - {t}, pages')
  {
    hide Counted, Mappers, Exclusive, Mapped, Pooled, Dirs, PagesLinked, Sized, TablesMatch;
    DropTableMatches(tables, m, pages', d, i, t);
  }

  lemma DropTableMatches(tables: map<nat, seq<Option<Pte>>>, m: Mem, pages': map<Slot, Pte>, d: nat, i: nat, t: nat)
    requires TablesMatch(tables, m.owner, m.pages) && TablesLinked(m.owner, m.tabs)
    requires Slot(d, i) in m.tabs && t == m.tabs[Slot(d, i)]
    requires RowGone(m.pages, pages', d, i * ENTRIES, (i + 1) * ENTRIES)
    ensures TablesMatch(tables - {t}, m.owner - {t}, pages')
  {
    forall u, j: nat | u in tables - {t} && j < ENTRIES
      ensures tables[u][j] == EntryOf(pages', PageOf(m.owner[u].slot, j))
    {
      var s := m.owner[u].slot;
      assert s != Slot(d, i);
    }
  }

  /** pages' is pages without the entries lo to hi of d. */
  ghost predicate RowGone(pages: map<Slot, Pte>, pages': map<Slot, Pte>, d: nat, lo: nat, hi: nat) {
    forall s :: EntryOf(pages', s) == if s.dir == d && lo <= s.index < hi then None else EntryOf(pages, s)
  }

  lemma RowGoneStart(m: Mem, d: nat, lo: nat)
    ensures RowGone(m.pages, m.pages, d, lo, lo)
  {
  }

  lemma RowGoneStep(m: Mem, m1: Mem, d: nat, lo: nat, p: nat)
    requires Fit(m1) && RowGone(m.pages, m1.pages, d, lo, p) && lo <= p
    ensures EntryOf(m1.pages, Slot(d, p)) == EntryOf(m.pages, Slot(d, p))
    ensures RowGone(m.pages, FreePage(m1, Slot(d, p)).pages, d, lo, p + 1)
    ensures |FreePage(m1, Slot(d, p)).ref| == |m1.ref|
  {
  }

  lemma CopiedNext(m: Mem, src: nat, dst: nat, p: nat)
    requires Linked(m) && Copied(m, src, dst, p)
    ensures Slot(dst, p) !in m.pages
  {
  }

  lemma NewDirMatches(dirs: map<nat, seq<Option<nat>>>, tables: map<nat, seq<Option<Pte>>>, m: Mem, d: nat)
    requires DirsMatch(dirs, m.owner, m.tabs) && TablesMatch(tables, m.owner, m.pages) && Inv(m) && d !in m.owner
    ensures DirsMatch(dirs[d := seq(USER_TABLES, _ => None)], m.owner[d := Directory], m.tabs)
    ensures TablesMatch(tables, m.owner[d := Directory], m.pages)
  {
    hide Counted, Mappers, Exclusive, Mapped, Pooled, Dirs, Sized, PagesLinked;
  }

  lemma ShareWrites(tables: map<nat, seq<Option<Pte>>>, m: Mem, s: Slot, t: Slot, a: nat, b: nat, j: nat, e: Pte)
    requires TablesMatch(tables, m.owner, m.pages) && Inv(m) && s != t && j < ENTRIES
    requires a in tables && b in tables && a in m.owner && b in m.owner && m.owner[a].Table? && m.owner[b].Table?
    requires PageOf(m.owner[a].slot, j) == s && PageOf(m.owner[b].slot, j) == t
    ensures |tables[a]| == |tables[b]| == ENTRIES
    ensures var tables1 := tables[a := tables[a][j := Some(e)]];
            && |tables1[b]| == ENTRIES
            && TablesMatch(tables1[b := tables1[b][j := Some(e)]], m.owner, m.pages[s := e][t := e])
  {
    hide Counted, Mappers, Exclusive, Mapped, Pooled, Dirs, Sized, PagesLinked, TablesLinked;
    var tables1 := tables[a := tables[a][j := Some(e)]];
    TableWrite(tables, m.owner, m.tabs, m.pages, m.pages[s := e], a, j, Some(e));
    TableWrite(tables1, m.owner, m.tabs, m.pages[s := e], m.pages[s := e][t := e], b, j, Some(e));
  }

  lemma DirEntry(dirs: map<nat, seq<Option<nat>>>, m: Mem, d: nat, i: nat)
    requires DirsMatch(dirs, m.owner, m.tabs) && d in dirs && i < USER_TABLES
    ensures |dirs[d]| == USER_TABLES && dirs[d][i] == if Slot(d, i) in m.tabs then Some(m.tabs[Slot(d, i)]) else None
  {
  }

  lemma DirOwner(dirs: map<nat, seq<Option<nat>>>, m: Mem, d: nat)
    requires DirsMatch(dirs, m.owner, m.tabs)
    ensures d in dirs <==> d in Dirs(m.owner)
  {
  }

  lemma NewTableMatches(dirs: map<nat, seq<Option<nat>>>, tables: map<nat, seq<Option<Pte>>>, m: Mem, t: Slot, f: nat)
    requires DirsMatch(dirs, m.owner, m.tabs) && TablesMatch(tables, m.owner, m.pages) && Held(m)
    requires t.dir in dirs && t.index < USER_TABLES && t !in m.tabs && f !in m.owner
    ensures |dirs[t.dir]| == USER_TABLES
    ensures DirsMatch(dirs[t.dir := dirs[t.dir][t.index := Some(f)]], m.owner[f := Table(t)], m.tabs[t := f])
    ensures TablesMatch(tables[f := seq(ENTRIES, _ => None)], m.owner[f := Table(t)], m.pages)
  {
    hide Held;
    NewTableEmpty(m, t);
  }

  lemma NewTableEmpty(m: Mem, t: Slot)
    requires Held(m) && t !in m.tabs
    ensures forall j: nat :: j < ENTRIES ==> PageOf(t, j) !in m.pages
  {
    hide TablesLinked;
    forall j: nat | j < ENTRIES ensures PageOf(t, j) !in m.pages {
      assert TableOf(PageOf(t, j)) == t;
    }
  }

  /** Writing the entry of page p keeps the tables in step with the flat picture. */
  lemma MapPage(dirs: map<nat, seq<Option<nat>>>, tables: map<nat, seq<Option<Pte>>>, m: Mem,
                d: nat, p: nat, t: nat, o: Option<Pte>)
    requires DirsMatch(dirs, m.owner, m.tabs) && TablesMatch(tables, m.owner, m.pages) && Held(m)
    requires d in dirs && p < USER_PAGES && p / ENTRIES < |dirs[d]| && dirs[d][p / ENTRIES] == Some(t)
    ensures t in tables && p % ENTRIES < |tables[t]|
    ensures var tables' := tables[t := tables[t][p % ENTRIES := o]];
            match o
            case None => TablesMatch(tables', m.owner, m.pages - {Slot(d, p)})
            case Some(e) => TablesMatch(tables', m.owner, m.pages[Slot(d, p) := e])
  {
    hide DirsMatch, PagesLinked, TablesLinked;
    Walk(dirs, tables, m, d, p);
    var pages' := if o.Some? then m.pages[Slot(d, p) := o.value] else m.pages - {Slot(d, p)};
    TableWrite(tables, m.owner, m.tabs, m.pages, pages', t, p % ENTRIES, o);
  }
}
