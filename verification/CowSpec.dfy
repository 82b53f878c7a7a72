/** Copy-on-write address spaces: the state, what each operation does to it, and the eager-copy view (src/mem/paging.c). */
module CowSpec {
  import opened Machine
  import opened Bitmaps

  const FRAMES := 32 * 1024 * 1024 / PAGE_SIZE
  const TABLE_ENTRIES := 1024
  const FIRST_USER_TABLE := 1
  const USER_TABLES_END := 768

  // User pages: those under page tables 1 to 767.
  const FIRST_USER_PAGE := FIRST_USER_TABLE * TABLE_ENTRIES
  const USER_PAGES_END := USER_TABLES_END * TABLE_ENTRIES

  // The directory entry through which an address space maps its own directory.
  const SELF_ENTRY := 769

  type Page = p: seq<byte> | |p| == PAGE_SIZE witness seq(PAGE_SIZE, _ => 0)

  function ZeroPage(): Page {
    seq(PAGE_SIZE, _ => 0)
  }

  /** A present page table entry. */
  datatype Pte = Pte(rw: bool, frame: nat)

  /** Frames of the page tables by directory entry, and the present entries by virtual page number. */
  datatype PageDir = PageDir(tables: map<nat, nat>, ptes: map<nat, Pte>)

  /** Frames in use, the copy-on-write counts, the address spaces by process, and the frames' contents. */
  datatype Cow = Cow(used: set<nat>, counts: map<nat, nat>, dirs: map<nat, PageDir>, ram: seq<Page>) {
    predicate Has(p: nat, v: nat) {
      p in dirs && v in dirs[p].ptes
    }

    function At(p: nat, v: nat): Pte
      requires Has(p, v)
    {
      dirs[p].ptes[v]
    }

    function Count(f: nat): nat {
      if f in counts then counts[f] else 0
    }

    function WithPte(p: nat, v: nat, e: Pte): Cow
      requires p in dirs
    {
      this.(dirs := dirs[p := dirs[p].(ptes := dirs[p].ptes[v := e])])
    }

    function WithoutPte(p: nat, v: nat): Cow
      requires p in dirs
    {
      this.(dirs := dirs[p := dirs[p].(ptes := dirs[p].ptes - {v})])
    }
  }

  predicate UserPage(v: nat) {
    FIRST_USER_PAGE <= v < USER_PAGES_END
  }

  // ---- Operations ----

  /** The frame `allocate_phy_frame` takes, if any is free. */
  ghost function FirstFree(used: set<nat>): (r: Option<nat>)
    ensures r.Some? ==> IsFirstFree(used, FRAMES, r.value)
    ensures r.None? ==> forall f: nat :: !IsFirstFree(used, FRAMES, f)
  {
    if exists f: nat :: IsFirstFree(used, FRAMES, f) then
      var f: nat :| IsFirstFree(used, FRAMES, f);
      Some(f)
    else None
  }

  /** `change_cow_frame_refcount`. */
  function Recount(counts: map<nat, nat>, f: nat, delta: int): map<nat, nat> {
    var count := (if f in counts then counts[f] else 0) + delta;
    if count > 0 then counts[f := count] else counts - {f}
  }

  /** Page table `i` of address space `p` exists, allocated if need be. */
  ghost function WithTable(s: Cow, p: nat, i: nat): Option<Cow>
    requires p in s.dirs
  {
    if i in s.dirs[p].tables then Some(s) else
    match FirstFree(s.used)
    case None => None
    case Some(t) =>
      Some(s.(used := s.used + {t}, dirs := s.dirs[p := s.dirs[p].(tables := s.dirs[p].tables[i := t])]))
  }

  /** A page touched for the first time: a fresh frame of zeros. */
  ghost function MapZero(s: Cow, p: nat, v: nat): Option<Cow>
    requires p in s.dirs && |s.ram| == FRAMES
  {
    match FirstFree(s.used)
    case None => None
    case Some(f) => Some(s.(used := s.used + {f}, ram := s.ram[f := ZeroPage()]).WithPte(p, v, Pte(true, f)))
  }

  /** A write fault on a read-only page: a private copy if others share the frame, otherwise the frame itself. */
  ghost function Unshare(s: Cow, p: nat, v: nat): Option<Cow>
    requires s.Has(p, v) && |s.ram| == FRAMES && s.At(p, v).frame < FRAMES
  {
    var f := s.At(p, v).frame;
    var t := s.(counts := Recount(s.counts, f, -1));
    if s.Count(f) > 0 then
      match FirstFree(s.used)
      case None => None
      case Some(g) => Some(t.(used := s.used + {g}, ram := s.ram[g := s.ram[f]]).WithPte(p, v, Pte(true, g)))
    else
      Some(t.WithPte(p, v, Pte(true, f)))
  }

  /** `map_page` after a page fault; None stands for the panic when no frame is left. */
  ghost function MapPage(s: Cow, p: nat, v: nat): Option<Cow>
    requires Inv(s) && p in s.dirs && UserPage(v)
  {
    match WithTable(s, p, v / TABLE_ENTRIES)
    case None => None
    case Some(t) =>
      if !t.Has(p, v) then MapZero(t, p, v)
      else if !t.At(p, v).rw then Unshare(t, p, v)
      else Some(t)
  }

  /** A store by the processor to a page it may write. */
  function StoreByte(s: Cow, p: nat, v: nat, off: nat, b: byte): Cow
    requires s.Has(p, v) && s.At(p, v).frame < |s.ram| && off < PAGE_SIZE
  {
    var f := s.At(p, v).frame;
    s.(ram := s.ram[f := s.ram[f][off := b]])
  }

  /** `release_page` giving the frame back. */
  function Unmap(s: Cow, p: nat, v: nat): Cow
    requires p in s.dirs
  {
    if !s.Has(p, v) then s else
    var f := s.At(p, v).frame;
    var t := s.(counts := Recount(s.counts, f, -1));
    (if s.Count(f) == 0 then t.(used := t.used - {f}) else t).WithoutPte(p, v)
  }

  function UnmapRange(s: Cow, p: nat, lo: nat, hi: nat): (t: Cow)
    requires p in s.dirs
    ensures t.dirs.Keys == s.dirs.Keys
    decreases hi
  {
    if hi <= lo then s else Unmap(UnmapRange(s, p, lo, hi - 1), p, hi - 1)
  }

  /** One iteration of `release_pages_tables`. */
  function DropTable(s: Cow, p: nat, i: nat): Cow
    requires p in s.dirs
  {
    if i !in s.dirs[p].tables then s else
    s.(used := s.used - {s.dirs[p].tables[i]}, dirs := s.dirs[p := s.dirs[p].(tables := s.dirs[p].tables - {i})])
  }

  function DropTables(s: Cow, p: nat, lo: nat, hi: nat): (t: Cow)
    requires p in s.dirs
    ensures t.dirs.Keys == s.dirs.Keys
    decreases hi
  {
    if hi <= lo then s else DropTable(DropTables(s, p, lo, hi - 1), p, hi - 1)
  }

  /** A new address space with nothing but its directory. */
  ghost function NewDir(s: Cow, c: nat): Option<Cow> {
    match FirstFree(s.used)
    case None => None
    case Some(d) => Some(s.(used := s.used + {d}, dirs := s.dirs[c := PageDir(map[SELF_ENTRY := d], map[])]))
  }

  /** One page of a fork: both sides read-only, one more sharer. */
  function Share(s: Cow, p: nat, c: nat, v: nat): (t: Cow)
    requires p in s.dirs && c in s.dirs
    ensures t.dirs.Keys == s.dirs.Keys
  {
    if !s.Has(p, v) then s else
    var e := Pte(false, s.At(p, v).frame);
    s.(counts := Recount(s.counts, e.frame, 1)).WithPte(p, v, e).WithPte(c, v, e)
  }

  function ShareRange(s: Cow, p: nat, c: nat, lo: nat, hi: nat): (t: Cow)
    requires p in s.dirs && c in s.dirs
    ensures t.dirs.Keys == s.dirs.Keys
    decreases hi
  {
    if hi <= lo then s else Share(ShareRange(s, p, c, lo, hi - 1), p, c, hi - 1)
  }

  /** One page table of a fork. */
  ghost function ForkTable(s: Cow, p: nat, c: nat, i: nat): (r: Option<Cow>)
    requires p in s.dirs && c in s.dirs
    ensures r.Some? ==> r.value.dirs.Keys == s.dirs.Keys
  {
    if i !in s.dirs[p].tables then Some(s) else
    match WithTable(s, c, i)
    case None => None
    case Some(t) => Some(ShareRange(t, p, c, i * TABLE_ENTRIES, (i + 1) * TABLE_ENTRIES))
  }

  ghost function ForkTables(s: Cow, p: nat, c: nat, i: nat): (r: Option<Cow>)
    requires p in s.dirs && c in s.dirs
    ensures r.Some? ==> r.value.dirs.Keys == s.dirs.Keys
    decreases i
  {
    if i <= FIRST_USER_TABLE then Some(s) else
    match ForkTables(s, p, c, i - 1)
    case None => None
    case Some(t) => ForkTable(t, p, c, i - 1)
  }

  /** `clone_crt_page_dir`. */
  ghost function Fork(s: Cow, p: nat, c: nat): Option<Cow>
    requires p in s.dirs && c !in s.dirs
  {
    match NewDir(s, c)
    case None => None
    case Some(t) => ForkTables(t, p, c, USER_TABLES_END)
  }

  // ---- The invariant ----

  /** Who maps frame `f`: process and virtual page. */
  ghost function Mappers(dirs: map<nat, PageDir>, f: nat): set<(nat, nat)> {
    set p, v | p in dirs && v in dirs[p].ptes && dirs[p].ptes[v].frame == f :: (p, v)
  }

  /** Every present page is a user page under an existing table, in a frame that is in use. */
  ghost predicate MappedOk(s: Cow) {
    forall p: nat, v: nat :: s.Has(p, v) ==>
                     UserPage(v) && v / TABLE_ENTRIES in s.dirs[p].tables && s.At(p, v).frame in s.used
  }

  /** A mapped frame has one mapper more than its count, and a writable one has no count. */
  ghost predicate CountsOk(s: Cow) {
    && (forall p: nat, v: nat :: s.Has(p, v) ==> |Mappers(s.dirs, s.At(p, v).frame)| == s.Count(s.At(p, v).frame) + 1)
    && (forall p: nat, v: nat :: s.Has(p, v) && s.At(p, v).rw ==> s.Count(s.At(p, v).frame) == 0)
    && (forall f :: f in s.counts ==> s.counts[f] > 0 && Mappers(s.dirs, f) != {})
  }

  /** Page tables and directories have frames of their own. */
  ghost predicate TablesOk(s: Cow) {
    && (forall p, i :: p in s.dirs && i in s.dirs[p].tables ==> s.dirs[p].tables[i] in s.used)
    && (forall p, i, q, j :: p in s.dirs && i in s.dirs[p].tables && q in s.dirs && j in s.dirs[q].tables
                             && s.dirs[p].tables[i] == s.dirs[q].tables[j] ==>
                               p == q && i == j)
    && (forall p, i, q: nat, v: nat :: p in s.dirs && i in s.dirs[p].tables && s.Has(q, v) ==> s.dirs[p].tables[i] != s.At(q, v).frame)
  }

  ghost predicate Inv(s: Cow) {
    && |s.ram| == FRAMES
    && (forall f :: f in s.used ==> f < FRAMES)
    && MappedOk(s) && CountsOk(s) && TablesOk(s)
  }

  // ---- The eager view ----

  /** What each process reads, page by page. */
  type Spaces = map<nat, map<nat, Page>>

  ghost function ViewOf(s: Cow, p: nat): (r: map<nat, Page>)
    requires Inv(s) && p in s.dirs
    ensures r.Keys == s.dirs[p].ptes.Keys
  {
    map v | v in s.dirs[p].ptes :: assert s.Has(p, v); s.ram[s.dirs[p].ptes[v].frame]
  }

  ghost function View(s: Cow): Spaces
    requires Inv(s)
  {
    map p | p in s.dirs :: ViewOf(s, p)
  }

  /** The eager copy: page `v` of process `p` now reads `page`. */
  function WithPage(e: Spaces, p: nat, v: nat, page: Page): Spaces
    requires p in e
  {
    var pages: map<nat, Page> := e[p];
    e[p := pages[v := page]]
  }

  /** The eager copy with the pages `lo..hi` of process `p` released. */
  ghost function WithoutPages(e: Spaces, p: nat, lo: nat, hi: nat): Spaces
    requires p in e
  {
    var pages: map<nat, Page> := map v: nat | v in e[p] && !(lo <= v < hi) :: e[p][v];
    e[p := pages]
  }
}
