/** The keyboard-locale cache of the Windows input helper as a value: what refreshing,
    selecting and unloading do to it, and what every run of them keeps. */
module LocaleCacheSpec {
  import opened Options

  /** A keyboard layout handle. */
  type Hkl = nat

  const NULL: Hkl := 0

  /** One allocated locale item; the serial number of its allocation is its identity. */
  datatype Entry = Entry(serial: nat, id: Hkl)

  /** How loading the tables of a layout can end. */
  datatype Outcome = NoLayoutFile | NoSystemDirectory | NoDescriptor | Loaded

  /** What the system answers during one refresh: the listed layouts (none when listing
      fails), the layout of the focused window, and how each layout loads. */
  datatype Os = Os(layouts: seq<Hkl>, focus: Hkl, load: Hkl -> Outcome)

  /** The cache, with the calls to malloc and free so far, the keyboard libraries held
      open, and the items evicted by refreshes. */
  datatype Cache = Cache(
    entries: seq<Entry>,
    current: Option<Entry>,
    mallocs: nat,
    frees: nat,
    libraries: nat,
    evicted: nat)

  const EMPTY := Cache([], None, 0, 0, 0, 0)

  // ---------- Refresh ----------

  /** The list with the first occurrence of an id set to NULL. */
  function Mark(list: seq<Hkl>, id: Hkl): seq<Hkl> {
    if list == [] then []
    else if list[0] == id then [NULL] + list[1..]
    else [list[0]] + Mark(list[1..], id)
  }

  /** The sweep so far: items kept, layouts not yet matched, and the current item. */
  datatype Swept = Swept(kept: seq<Entry>, list: seq<Hkl>, current: Option<Entry>)

  function SweepOne(os: Os, s: Swept, e: Entry): Swept {
    if e.id in s.list then
      Swept(s.kept + [e], Mark(s.list, e.id), if e.id == os.focus then Some(e) else s.current)
    else
      Swept(s.kept, s.list, if s.current == Some(e) then None else s.current)
  }

  function Sweep(os: Os, entries: seq<Entry>, current: Option<Entry>): Swept {
    if entries == [] then Swept([], os.layouts, current)
    else SweepOne(os, Sweep(os, entries[..|entries| - 1], current), entries[|entries| - 1])
  }

  function Insert(os: Os, c: Cache, id: Hkl): Cache {
    if id == NULL then c
    else
      match os.load(id)
      case Loaded =>
        var e := Entry(c.mallocs, id);
        c.(entries := c.entries + [e], current := if id == os.focus then Some(e) else c.current,
           mallocs := c.mallocs + 1, libraries := c.libraries + 1)
      case NoDescriptor => c.(mallocs := c.mallocs + 1, frees := c.frees + 1)
      case _ => c
  }

  function InsertAll(os: Os, c: Cache, list: seq<Hkl>): Cache {
    if list == [] then c
    else Insert(os, InsertAll(os, c, list[..|list| - 1]), list[|list| - 1])
  }

  /** The refresh writes through a null previous item: the first item is to be evicted. */
  predicate Crashes(os: Os, c: Cache) {
    os.layouts != [] && c.entries != [] && c.entries[0].id !in os.layouts
  }

  function AfterSweep(os: Os, c: Cache): Cache {
    var s := Sweep(os, c.entries, c.current);
    var gone := if |s.kept| <= |c.entries| then |c.entries| - |s.kept| else 0;
    c.(entries := s.kept, current := s.current, frees := c.frees + gone, evicted := c.evicted + gone)
  }

  /** refresh_locale_list; None when it crashes. */
  function Refresh(os: Os, c: Cache): Option<Cache> {
    if os.layouts == [] then Some(c)
    else if Crashes(os, c) then None
    else Some(InsertAll(os, AfterSweep(os, c), Sweep(os, c.entries, c.current).list))
  }

  // ---------- Selection and unloading ----------

  /** The plain linear search. */
  function Find(entries: seq<Entry>, id: Hkl): Option<Entry> {
    if entries == [] then None
    else if entries[0].id == id then Some(entries[0])
    else Find(entries[1..], id)
  }

  /** The layout wanted: the focused window's, else the hook thread's own. */
  function Wanted(focus: Hkl, own: Hkl): Hkl {
    if focus == NULL then own else focus
  }

  /** The selection in keycode_to_unicode. `os` answers if a refresh becomes necessary. */
  function Select(os: Os, c: Cache, focus: Hkl, own: Hkl): Option<Cache> {
    var id := Wanted(focus, own);
    if c.current.Some? && c.current.value.id == id then Some(c)
    else
      match Find(c.entries, id)
      case Some(e) => Some(c.(current := Some(e)))
      case None => Refresh(os, c.(current := None))
  }

  /** unload_input_helper. */
  function Unload(c: Cache): Cache {
    c.(entries := [], current := None, frees := c.frees + |c.entries|,
       libraries := if |c.entries| <= c.libraries then c.libraries - |c.entries| else 0)
  }

  // ---------- Well-formedness, over every run ----------

  ghost predicate WellFormed(c: Cache) {
    && Ordered(c.entries)
    && (forall e <- c.entries :: e.serial < c.mallocs && e.id != NULL)
    && (c.current.Some? ==> c.current.value in c.entries)
    && c.mallocs == c.frees + |c.entries|
    && c.libraries == |c.entries| + c.evicted
  }

  ghost predicate DistinctIds(entries: seq<Entry>) {
    forall i, j :: 0 <= i < j < |entries| ==> entries[i].id != entries[j].id
  }

  /** No layout is listed twice. */
  ghost predicate DistinctLayouts(list: seq<Hkl>) {
    forall i, j :: 0 <= i < j < |list| && list[i] != NULL ==> list[i] != list[j]
  }

  ghost predicate Ordered(entries: seq<Entry>) {
    forall i, j :: 0 <= i < j < |entries| ==> entries[i].serial < entries[j].serial
  }

  lemma {:induction false} KeptSubset(os: Os, entries: seq<Entry>, current: Option<Entry>)
    ensures var s := Sweep(os, entries, current);
            |s.kept| <= |entries| && forall e <- s.kept :: e in entries
  {
    if entries != [] {
      KeptSubset(os, entries[..|entries| - 1], current);
      assert forall e :: e in entries <==> e in entries[..|entries| - 1] || e == entries[|entries| - 1];
    }
  }

  lemma {:induction false} KeptOrdered(os: Os, entries: seq<Entry>, current: Option<Entry>)
    requires Ordered(entries)
    ensures Ordered(Sweep(os, entries, current).kept)
  {
    if entries != [] {
      var before, e := entries[..|entries| - 1], entries[|entries| - 1];
      KeptOrdered(os, before, current);
      KeptSubset(os, before, current);
      assert forall d <- before :: d.serial < e.serial;
    }
  }

  /** After sweeping some entries, the current item is one of those kept or not yet reached. */
  lemma {:induction false} KeptCurrent(os: Os, entries: seq<Entry>, rest: seq<Entry>, current: Option<Entry>)
    requires current.Some? ==> current.value in entries + rest
    ensures var s := Sweep(os, entries, current);
            s.current.Some? ==> s.current.value in s.kept || s.current.value in rest
  {
    if entries != [] {
      var before, e := entries[..|entries| - 1], entries[|entries| - 1];
      assert entries + rest == before + ([e] + rest);
      KeptCurrent(os, before, [e] + rest, current);
    }
  }

  lemma AfterSweepWellFormed(os: Os, c: Cache)
    requires WellFormed(c)
    ensures WellFormed(AfterSweep(os, c))
  {
    KeptSubset(os, c.entries, c.current);
    KeptOrdered(os, c.entries, c.current);
    assert c.entries + [] == c.entries;
    KeptCurrent(os, c.entries, [], c.current);
  }

  lemma InsertWellFormed(os: Os, c: Cache, id: Hkl)
    requires WellFormed(c)
    ensures WellFormed(Insert(os, c, id))
  {}

  lemma {:induction false} InsertAllWellFormed(os: Os, c: Cache, list: seq<Hkl>)
    requires WellFormed(c)
    ensures WellFormed(InsertAll(os, c, list))
  {
    if list != [] {
      InsertAllWellFormed(os, c, list[..|list| - 1]);
      InsertWellFormed(os, InsertAll(os, c, list[..|list| - 1]), list[|list| - 1]);
    }
  }

  lemma RefreshWellFormed(os: Os, c: Cache)
    requires WellFormed(c) && Refresh(os, c).Some?
    ensures WellFormed(Refresh(os, c).value)
  {
    if os.layouts != [] {
      AfterSweepWellFormed(os, c);
      InsertAllWellFormed(os, AfterSweep(os, c), Sweep(os, c.entries, c.current).list);
    }
  }

  lemma {:induction false} FindIsFirst(entries: seq<Entry>, id: Hkl)
    ensures match Find(entries, id)
            case None => forall e <- entries :: e.id != id
            case Some(e) => e in entries && e.id == id
  {
    if entries != [] && entries[0].id != id {
      FindIsFirst(entries[1..], id);
    }
  }

  /** The item found is the first of that id. */
  lemma {:induction false} FindFirst(entries: seq<Entry>, i: nat)
    requires i < |entries| && forall j :: 0 <= j < i ==> entries[j].id != entries[i].id
    ensures Find(entries, entries[i].id) == Some(entries[i])
  {
    if i > 0 {
      FindFirst(entries[1..], i - 1);
    }
  }

  lemma SelectWellFormed(os: Os, c: Cache, focus: Hkl, own: Hkl)
    requires WellFormed(c) && Select(os, c, focus, own).Some?
    ensures WellFormed(Select(os, c, focus, own).value)
  {
    FindIsFirst(c.entries, Wanted(focus, own));
    if Find(c.entries, Wanted(focus, own)).None? {
      var cleared := c.(current := None);
      assert WellFormed(cleared);
      if Refresh(os, cleared).Some? {
        RefreshWellFormed(os, cleared);
      }
    }
  }

  /** What can be called on the cache. */
  datatype Op = Load(os: Os) | Choose(os: Os, focus: Hkl, own: Hkl) | Drop

  function Apply(c: Cache, op: Op): Option<Cache> {
    match op
    case Load(os) => Refresh(os, c)
    case Choose(os, focus, own) => Select(os, c, focus, own)
    case Drop => Some(Unload(c))
  }

  function Run(ops: seq<Op>): Option<Cache> {
    if ops == [] then Some(EMPTY)
    else
      match Run(ops[..|ops| - 1])
      case None => None
      case Some(c) => Apply(c, ops[|ops| - 1])
  }

  /** Over every run of loads, selections and unloads that has not crashed, the nodes are
      conserved (allocations minus frees is the length of the list, libraries open is
      the length plus the evictions), the current item is null or a live item, and no
      two items are the same node. */
  lemma {:induction false} RunWellFormed(ops: seq<Op>)
    requires Run(ops).Some?
    ensures WellFormed(Run(ops).value)
  {
    if ops != [] {
      var before, op := ops[..|ops| - 1], ops[|ops| - 1];
      RunWellFormed(before);
      match op
      case Load(os) => RefreshWellFormed(os, Run(before).value);
      case Choose(os, focus, own) => SelectWellFormed(os, Run(before).value, focus, own);
      case Drop =>
    }
  }
}
