/** What refreshing and selecting guarantee when the system lists no layout twice. */
module LocaleCacheProperties {
  import opened Options
  import opened LocaleCacheSpec

  function Ids(entries: seq<Entry>): seq<Hkl> {
    seq(|entries|, i requires 0 <= i < |entries| => entries[i].id)
  }

  predicate Cached(entries: seq<Entry>, id: Hkl) {
    exists e <- entries :: e.id == id
  }

  /** The entries whose layout is still listed, in order. */
  function Listed(entries: seq<Entry>, layouts: seq<Hkl>): seq<Entry> {
    if entries == [] then []
    else
      var e := entries[|entries| - 1];
      Listed(entries[..|entries| - 1], layouts) + if e.id in layouts then [e] else []
  }

  /** The layouts that load, in order. */
  function Loadable(os: Os, list: seq<Hkl>): seq<Hkl> {
    if list == [] then []
    else
      var id := list[|list| - 1];
      Loadable(os, list[..|list| - 1]) + if id != NULL && os.load(id) == Loaded then [id] else []
  }

  /** The layouts that are not cached yet, in order. */
  function Uncached(entries: seq<Entry>, list: seq<Hkl>): seq<Hkl> {
    if list == [] then []
    else
      var id := list[|list| - 1];
      Uncached(entries, list[..|list| - 1]) + if id != NULL && !Cached(entries, id) then [id] else []
  }

  // ---------- The sweep ----------

  /** What the sweep leaves of the list: cached layouts become NULL. */
  ghost predicate Marked(entries: seq<Entry>, layouts: seq<Hkl>, list: seq<Hkl>) {
    && |list| == |layouts|
    && forall i :: 0 <= i < |list| ==> list[i] == if Cached(entries, layouts[i]) then NULL else layouts[i]
  }

  lemma {:induction false} MarkDistinct(list: seq<Hkl>, id: Hkl)
    requires DistinctLayouts(list) && id != NULL
    ensures var m := Mark(list, id);
            |m| == |list| && forall i :: 0 <= i < |list| ==> m[i] == if list[i] == id then NULL else list[i]
  {
    if list != [] {
      var rest := list[1..];
      assert forall i :: 0 <= i < |rest| ==> rest[i] == list[i + 1];
      if list[0] != id {
        MarkDistinct(rest, id);
      }
    }
  }

  lemma CachedSnoc(before: seq<Entry>, e: Entry, id: Hkl)
    ensures Cached(before + [e], id) <==> Cached(before, id) || e.id == id
  {
    if Cached(before, id) {
      var d :| d in before && d.id == id;
      assert d in before + [e];
    }
    assert e in before + [e];
  }

  ghost predicate Usable(entries: seq<Entry>) {
    DistinctIds(entries) && forall e <- entries :: e.id != NULL
  }

  /** The sweep keeps exactly the listed entries, and marks exactly the cached layouts. */
  lemma {:induction false} SweepContents(os: Os, entries: seq<Entry>, current: Option<Entry>)
    requires Usable(entries) && DistinctLayouts(os.layouts)
    ensures var s := Sweep(os, entries, current);
            s.kept == Listed(entries, os.layouts) && Marked(entries, os.layouts, s.list)
  {
    if entries != [] {
      var before, e := entries[..|entries| - 1], entries[|entries| - 1];
      SweepContents(os, before, current);
      assert entries == before + [e] && e in entries;
      var list := Sweep(os, before, current).list;
      assert !Cached(before, e.id);
      MarkStep(before, e, os.layouts, list);
    }
  }

  lemma MarkStep(before: seq<Entry>, e: Entry, layouts: seq<Hkl>, list: seq<Hkl>)
    requires Marked(before, layouts, list) && DistinctLayouts(layouts)
    requires e.id != NULL && !Cached(before, e.id)
    ensures e.id in list <==> e.id in layouts
    ensures Marked(before + [e], layouts, if e.id in list then Mark(list, e.id) else list)
  {
    assert DistinctLayouts(list);
    MarkDistinct(list, e.id);
    forall i | 0 <= i < |layouts| ensures layouts[i] == e.id <==> list[i] == e.id {}
    if e.id in layouts {
      var i :| 0 <= i < |layouts| && layouts[i] == e.id;
      assert list[i] == e.id;
    }
    forall i | 0 <= i < |layouts|
      ensures Cached(before + [e], layouts[i]) <==> Cached(before, layouts[i]) || e.id == layouts[i]
    {
      CachedSnoc(before, e, layouts[i]);
    }
  }

  // ---------- The insertion ----------

  lemma {:induction false} InsertAllContents(os: Os, c: Cache, list: seq<Hkl>)
    ensures var r := InsertAll(os, c, list);
            c.entries <= r.entries && Ids(r.entries) == Ids(c.entries) + Loadable(os, list)
  {
    if list == [] {
      assert Ids(c.entries) + [] == Ids(c.entries);
    } else {
      var before, id := list[..|list| - 1], list[|list| - 1];
      InsertAllContents(os, c, before);
      var r := InsertAll(os, c, before);
      if id != NULL && os.load(id) == Loaded {
        assert Ids(InsertAll(os, c, list).entries) == Ids(r.entries) + [id];
      } else {
        assert InsertAll(os, c, list).entries == r.entries && Loadable(os, list) == Loadable(os, before);
      }
    }
  }

  lemma {:induction false} LoadableOfMarked(os: Os, entries: seq<Entry>, layouts: seq<Hkl>, list: seq<Hkl>)
    requires Marked(entries, layouts, list)
    ensures Loadable(os, list) == Loadable(os, Uncached(entries, layouts))
  {
    if list != [] {
      var n := |list| - 1;
      LoadableOfMarked(os, entries, layouts[..n], list[..n]);
      var u := Uncached(entries, layouts[..n]);
      if list[n] == NULL {
        assert Uncached(entries, layouts) == u && Loadable(os, list) == Loadable(os, list[..n]);
      } else {
        assert Uncached(entries, layouts) == u + [layouts[n]];
        assert (u + [layouts[n]])[..|u|] == u;
      }
    }
  }

  /** A refresh leaves the listed entries in their order, followed by one new entry for
      every listed layout that was not cached and loads, in the order of the list. */
  lemma RefreshContents(os: Os, c: Cache)
    requires WellFormed(c) && DistinctIds(c.entries) && DistinctLayouts(os.layouts)
    requires os.layouts != [] && Refresh(os, c).Some?
    ensures var r := Refresh(os, c).value;
            var kept := Listed(c.entries, os.layouts);
            && kept <= r.entries
            && Ids(r.entries) == Ids(kept) + Loadable(os, Uncached(c.entries, os.layouts))
  {
    SweepContents(os, c.entries, c.current);
    var s := Sweep(os, c.entries, c.current);
    InsertAllContents(os, AfterSweep(os, c), s.list);
    LoadableOfMarked(os, c.entries, os.layouts, s.list);
  }

  lemma {:induction false} ListedMembers(entries: seq<Entry>, layouts: seq<Hkl>)
    ensures forall e :: e in Listed(entries, layouts) <==> e in entries && e.id in layouts
  {
    if entries != [] {
      ListedMembers(entries[..|entries| - 1], layouts);
    }
  }

  lemma {:induction false} ListedDistinct(entries: seq<Entry>, layouts: seq<Hkl>)
    requires DistinctIds(entries)
    ensures DistinctIds(Listed(entries, layouts))
  {
    if entries != [] {
      var before, e := entries[..|entries| - 1], entries[|entries| - 1];
      ListedDistinct(before, layouts);
      ListedMembers(before, layouts);
      assert forall d <- before :: d.id != e.id;
    }
  }

  lemma {:induction false} UncachedMembers(entries: seq<Entry>, list: seq<Hkl>)
    ensures forall id :: id in Uncached(entries, list) <==> id in list && id != NULL && !Cached(entries, id)
  {
    if list != [] {
      UncachedMembers(entries, list[..|list| - 1]);
    }
  }

  lemma {:induction false} LoadableMembers(os: Os, list: seq<Hkl>)
    ensures forall id :: id in Loadable(os, list) <==> id in list && id != NULL && os.load(id) == Loaded
  {
    if list != [] {
      LoadableMembers(os, list[..|list| - 1]);
    }
  }

  lemma {:induction false} UncachedDistinct(entries: seq<Entry>, list: seq<Hkl>)
    requires DistinctLayouts(list)
    ensures DistinctLayouts(Uncached(entries, list))
  {
    if list != [] {
      UncachedDistinct(entries, list[..|list| - 1]);
      UncachedMembers(entries, list[..|list| - 1]);
    }
  }

  lemma {:induction false} LoadableDistinct(os: Os, list: seq<Hkl>)
    requires DistinctLayouts(list)
    ensures DistinctLayouts(Loadable(os, list))
  {
    if list != [] {
      LoadableDistinct(os, list[..|list| - 1]);
      LoadableMembers(os, list[..|list| - 1]);
    }
  }

  /** The ids cached after a refresh: those listed that were cached already or load. */
  lemma RefreshIds(os: Os, c: Cache, id: Hkl)
    requires WellFormed(c) && DistinctIds(c.entries) && DistinctLayouts(os.layouts)
    requires os.layouts != [] && Refresh(os, c).Some?
    ensures Cached(Refresh(os, c).value.entries, id) <==>
              id in os.layouts && id != NULL && (Cached(c.entries, id) || os.load(id) == Loaded)
  {
    RefreshContents(os, c);
    var r := Refresh(os, c).value;
    var kept := Listed(c.entries, os.layouts);
    var added := Loadable(os, Uncached(c.entries, os.layouts));
    ListedMembers(c.entries, os.layouts);
    UncachedMembers(c.entries, os.layouts);
    LoadableMembers(os, Uncached(c.entries, os.layouts));
    CachedIsId(r.entries, id);
    CachedIsId(kept, id);
    assert id in Ids(r.entries) <==> id in Ids(kept) || id in added;
    if Cached(c.entries, id) && id in os.layouts {
      var e :| e in c.entries && e.id == id;
      assert e in kept;
    }
  }

  lemma CachedIsId(entries: seq<Entry>, id: Hkl)
    ensures Cached(entries, id) <==> id in Ids(entries)
  {
    if id in Ids(entries) {
      var i :| 0 <= i < |entries| && Ids(entries)[i] == id;
      assert entries[i] in entries;
    }
    if Cached(entries, id) {
      var i :| 0 <= i < |entries| && entries[i].id == id;
      assert Ids(entries)[i] == id;
    }
  }

  /** A refresh keeps the ids distinct. */
  lemma RefreshDistinct(os: Os, c: Cache)
    requires WellFormed(c) && DistinctIds(c.entries) && DistinctLayouts(os.layouts)
    requires Refresh(os, c).Some?
    ensures DistinctIds(Refresh(os, c).value.entries)
  {
    if os.layouts != [] {
      RefreshContents(os, c);
      var kept, fresh_ := Listed(c.entries, os.layouts), Uncached(c.entries, os.layouts);
      ListedDistinct(c.entries, os.layouts);
      ListedMembers(c.entries, os.layouts);
      UncachedDistinct(c.entries, os.layouts);
      UncachedMembers(c.entries, os.layouts);
      LoadableDistinct(os, fresh_);
      LoadableMembers(os, fresh_);
      DistinctJoin(kept, Loadable(os, fresh_), Refresh(os, c).value.entries);
    }
  }

  lemma DistinctJoin(kept: seq<Entry>, added: seq<Hkl>, all: seq<Entry>)
    requires DistinctIds(kept) && DistinctLayouts(added) && NULL !in added
    requires forall e <- kept :: e.id !in added
    requires Ids(all) == Ids(kept) + added
    ensures DistinctIds(all)
  {
    assert |all| == |Ids(all)| == |kept| + |added|;
    forall i, j | 0 <= i < j < |all| ensures all[i].id != all[j].id {
      assert all[i].id == Ids(all)[i] && all[j].id == Ids(all)[j];
      if j < |kept| {
        assert kept[i].id == Ids(kept)[i] && kept[j].id == Ids(kept)[j];
      } else if i < |kept| {
        assert kept[i] in kept && all[j].id == added[j - |kept|];
      } else {
        assert all[i].id == added[i - |kept|] && all[j].id == added[j - |kept|];
        assert added[i - |kept|] in added;
      }
    }
  }

  // ---------- The current item ----------

  lemma {:induction false} FindSnoc(before: seq<Entry>, e: Entry, id: Hkl)
    ensures Find(before + [e], id)
         == if Find(before, id).Some? then Find(before, id) else if e.id == id then Some(e) else None
  {
    if before == [] {
      assert [] + [e] == [e] && [e][1..] == [];
    } else {
      assert (before + [e])[1..] == before[1..] + [e];
      FindSnoc(before[1..], e, id);
    }
  }

  /** The item of the focused layout, or else another one. */
  function FocusedOr(entries: seq<Entry>, focus: Hkl, other: Option<Entry>): Option<Entry> {
    match Find(entries, focus)
    case Some(e) => Some(e)
    case None => other
  }

  /** The sweep makes the kept item of the focused layout current; without one it keeps
      the current item, unless it swept that item away. */
  lemma {:induction false} SweepCurrent(os: Os, entries: seq<Entry>, current: Option<Entry>)
    requires DistinctIds(entries)
    ensures var s := Sweep(os, entries, current);
            var swept := current.Some? && current.value in entries && current.value !in s.kept;
            s.current == FocusedOr(s.kept, os.focus, if swept then None else current)
  {
    if entries != [] {
      var before, e := entries[..|entries| - 1], entries[|entries| - 1];
      SweepCurrent(os, before, current);
      KeptSubset(os, before, current);
      var p := Sweep(os, before, current);
      FindIsFirst(p.kept, os.focus);
      assert forall d <- before :: d.id != e.id;
      assert forall d :: d in entries <==> d in before || d == e;
      if e.id in p.list {
        FindSnoc(p.kept, e, os.focus);
      }
    }
  }

  lemma {:induction false} InsertAllCurrent(os: Os, c: Cache, list: seq<Hkl>)
    requires DistinctIds(InsertAll(os, c, list).entries)
    requires Find(c.entries, os.focus).Some? ==> c.current == Find(c.entries, os.focus)
    ensures var r := InsertAll(os, c, list);
            r.current == FocusedOr(r.entries, os.focus, c.current)
  {
    if list != [] {
      var before, id := list[..|list| - 1], list[|list| - 1];
      var p, r := InsertAll(os, c, before), InsertAll(os, c, list);
      assert p.entries <= r.entries;
      InsertAllCurrent(os, c, before);
      if id != NULL && os.load(id) == Loaded {
        var e := Entry(p.mallocs, id);
        FindSnoc(p.entries, e, os.focus);
        FindIsFirst(p.entries, os.focus);
        assert r.entries[|p.entries|] == e;
        assert forall i :: 0 <= i < |p.entries| ==> r.entries[i] == p.entries[i];
      }
    }
  }

  /** After a refresh the item of the focused layout is current if there is one; else the
      current item stays current exactly if its layout is still listed. */
  lemma RefreshCurrent(os: Os, c: Cache)
    requires WellFormed(c) && DistinctIds(c.entries) && DistinctLayouts(os.layouts)
    requires os.layouts != [] && Refresh(os, c).Some?
    ensures var r := Refresh(os, c).value;
            var listed := c.current.Some? && c.current.value.id in os.layouts;
            r.current == FocusedOr(r.entries, os.focus, if listed then c.current else None)
  {
    RefreshDistinct(os, c);
    SweepContents(os, c.entries, c.current);
    SweepCurrent(os, c.entries, c.current);
    ListedMembers(c.entries, os.layouts);
    var mid, list := AfterSweep(os, c), Sweep(os, c.entries, c.current).list;
    InsertAllCurrent(os, mid, list);
    InsertAllContents(os, mid, list);
    FindIsFirst(mid.entries, os.focus);
    FindIsFirst(InsertAll(os, mid, list).entries, os.focus);
    assert forall e <- mid.entries :: e in InsertAll(os, mid, list).entries;
  }

  // ---------- Refreshing twice ----------

  lemma {:induction false} ListedAll(entries: seq<Entry>, layouts: seq<Hkl>)
    requires forall i :: 0 <= i < |entries| ==> entries[i].id in layouts
    ensures Listed(entries, layouts) == entries
  {
    if entries != [] {
      ListedAll(entries[..|entries| - 1], layouts);
      assert entries == entries[..|entries| - 1] + [entries[|entries| - 1]];
    }
  }

  /** The items allocated in vain: layouts without a descriptor. */
  function Failures(os: Os, list: seq<Hkl>): nat {
    if list == [] then 0
    else
      var id := list[|list| - 1];
      Failures(os, list[..|list| - 1]) + if id != NULL && os.load(id) == NoDescriptor then 1 else 0
  }

  lemma {:induction false} NoFailures(os: Os, list: seq<Hkl>)
    ensures Failures(os, list) == 0 <==> forall id <- list :: id != NULL ==> os.load(id) != NoDescriptor
  {
    if list != [] {
      var before, id := list[..|list| - 1], list[|list| - 1];
      NoFailures(os, before);
      assert forall x :: x in list <==> x in before || x == id;
    }
  }

  lemma {:induction false} InsertNothing(os: Os, c: Cache, list: seq<Hkl>)
    requires forall id <- list :: id != NULL ==> os.load(id) != Loaded
    ensures InsertAll(os, c, list)
         == c.(mallocs := c.mallocs + Failures(os, list), frees := c.frees + Failures(os, list))
  {
    if list != [] {
      InsertNothing(os, c, list[..|list| - 1]);
      assert list[|list| - 1] in list;
    }
  }

  /** A cache that already agrees with the system's answers. */
  ghost predicate Settled(os: Os, c: Cache) {
    && WellFormed(c) && DistinctIds(c.entries)
    && (forall e <- c.entries :: e.id in os.layouts)
    && (forall id <- os.layouts :: id != NULL && os.load(id) == Loaded ==> Cached(c.entries, id))
    && c.current == FocusedOr(c.entries, os.focus, c.current)
  }

  lemma RefreshSettles(os: Os, c: Cache)
    requires WellFormed(c) && DistinctIds(c.entries) && DistinctLayouts(os.layouts)
    requires os.layouts != [] && Refresh(os, c).Some?
    ensures Settled(os, Refresh(os, c).value)
  {
    var r := Refresh(os, c).value;
    RefreshWellFormed(os, c);
    RefreshDistinct(os, c);
    RefreshCurrent(os, c);
    forall e <- r.entries ensures e.id in os.layouts {
      RefreshIds(os, c, e.id);
    }
    forall id <- os.layouts ensures id != NULL && os.load(id) == Loaded ==> Cached(r.entries, id) {
      RefreshIds(os, c, id);
    }
  }

  lemma SettledSweep(os: Os, c: Cache)
    requires Settled(os, c) && DistinctLayouts(os.layouts)
    ensures AfterSweep(os, c) == c && Marked(c.entries, os.layouts, Sweep(os, c.entries, c.current).list)
  {
    SweepContents(os, c.entries, c.current);
    ListedAll(c.entries, os.layouts);
    SettledCurrent(os, c);
  }

  lemma SettledCurrent(os: Os, c: Cache)
    requires Settled(os, c) && Sweep(os, c.entries, c.current).kept == c.entries
    ensures Sweep(os, c.entries, c.current).current == c.current
  {
    hide Sweep, Find;
    SweepCurrent(os, c.entries, c.current);
  }

  lemma SettledInsert(os: Os, c: Cache, list: seq<Hkl>)
    requires Settled(os, c) && Marked(c.entries, os.layouts, list)
    ensures InsertAll(os, c, list)
         == c.(mallocs := c.mallocs + Failures(os, list), frees := c.frees + Failures(os, list))
    ensures Failures(os, list) == 0 <==>
              forall id <- os.layouts :: id != NULL && !Cached(c.entries, id) ==> os.load(id) != NoDescriptor
  {
    forall id <- list ensures id != NULL ==> id in os.layouts && !Cached(c.entries, id) {
      var i :| 0 <= i < |list| && list[i] == id;
      assert os.layouts[i] in os.layouts;
    }
    forall id <- os.layouts ensures id != NULL && !Cached(c.entries, id) ==> id in list {
      var i :| 0 <= i < |os.layouts| && os.layouts[i] == id;
      assert list[i] == if Cached(c.entries, id) then NULL else id;
    }
    InsertNothing(os, c, list);
    NoFailures(os, list);
  }

  /** Refreshing again with the same answers finds the same items and the same current
      one; it changes nothing at all exactly when no uncached layout lacks a descriptor. */
  lemma RefreshTwice(os: Os, c: Cache)
    requires WellFormed(c) && DistinctIds(c.entries) && DistinctLayouts(os.layouts)
    requires os.layouts != [] && Refresh(os, c).Some?
    ensures var r := Refresh(os, c).value;
            && Refresh(os, r).Some?
            && var again := Refresh(os, r).value;
            && again.entries == r.entries && again.current == r.current
            && (again == r <==>
                  forall id <- os.layouts :: id != NULL && !Cached(r.entries, id) ==> os.load(id) != NoDescriptor)
  {
    var r := Refresh(os, c).value;
    RefreshSettles(os, c);
    SettledSweep(os, r);
    SettledInsert(os, r, Sweep(os, r.entries, r.current).list);
    assert r.entries != [] ==> r.entries[0] in r.entries;
  }

  /** If listing the layouts fails, nothing changes. */
  lemma FailedListing(os: Os, c: Cache)
    ensures os.layouts == [] ==> Refresh(os, c) == Some(c)
  {}

  lemma {:induction false} LoadableOfUncached(os: Os, list: seq<Hkl>)
    ensures Loadable(os, Uncached([], list)) == Loadable(os, list)
  {
    if list != [] {
      var before, id := list[..|list| - 1], list[|list| - 1];
      LoadableOfUncached(os, before);
      if id != NULL {
        assert Uncached([], list)[..|Uncached([], before)|] == Uncached([], before);
      } else {
        assert Uncached([], list) == Uncached([], before);
      }
    }
  }

  /** Two loads crash exactly if the first layout that the first of them loaded is missing
      from the list of the second, and that is not empty. */
  lemma SecondLoadCrashes(os: Os, os': Os)
    requires DistinctLayouts(os.layouts)
    ensures var loaded := Loadable(os, os.layouts);
            Run([Load(os), Load(os')]).None? <==>
              loaded != [] && os'.layouts != [] && loaded[0] !in os'.layouts
  {
    assert [Load(os), Load(os')][..1] == [Load(os)] && [Load(os)][..0] == [];
    assert Run([Load(os)]) == Refresh(os, EMPTY);
    if os.layouts != [] {
      RefreshContents(os, EMPTY);
      LoadableOfUncached(os, os.layouts);
      assert Ids(Refresh(os, EMPTY).value.entries) == Loadable(os, os.layouts);
    }
  }

  // ---------- Selection ----------

  lemma FindIffCached(entries: seq<Entry>, id: Hkl)
    ensures Find(entries, id).Some? <==> Cached(entries, id)
  {
    FindIsFirst(entries, id);
  }

  lemma {:induction false} FindUnique(entries: seq<Entry>, e: Entry)
    requires DistinctIds(entries) && e in entries
    ensures Find(entries, e.id) == Some(e)
  {
    if entries[0] != e {
      var i :| 0 <= i < |entries| && entries[i] == e;
      assert entries[0].id != entries[i].id;
      assert entries[1..][i - 1] == e;
      FindUnique(entries[1..], e);
    }
  }

  /** Selection agrees with a plain linear search. A cached layout is found, by the fast
      path or not, and nothing else changes; otherwise the cache is refreshed, and the
      result is the linear search for the layout focused then, or nothing. */
  lemma SelectAgrees(os: Os, c: Cache, focus: Hkl, own: Hkl)
    requires WellFormed(c) && DistinctIds(c.entries) && DistinctLayouts(os.layouts)
    requires Select(os, c, focus, own).Some?
    ensures var id := if focus == NULL then own else focus;
            var r := Select(os, c, focus, own).value;
            && (Cached(c.entries, id) ==> r == c.(current := Find(c.entries, id)) && r.current.Some?)
            && (!Cached(c.entries, id) ==>
                  r.current == if os.layouts == [] then None else Find(r.entries, os.focus))
  {
    var id := Wanted(focus, own);
    FindIffCached(c.entries, id);
    if c.current.Some? && c.current.value.id == id {
      FindUnique(c.entries, c.current.value);
    } else if Find(c.entries, id).None? && os.layouts != [] {
      RefreshCurrent(os, c.(current := None));
    }
  }

  /** A cached layout is selected, and nothing else changes: the focused window's if that can
      be read, and else the hook thread's own. */
  lemma CachedSelected(os: Os, c: Cache, focus: Hkl, own: Hkl)
    requires WellFormed(c) && DistinctIds(c.entries)
    ensures focus != NULL && Cached(c.entries, focus) ==>
              Select(os, c, focus, own) == Some(c.(current := Find(c.entries, focus)))
    ensures Cached(c.entries, own) ==> Select(os, c, NULL, own) == Some(c.(current := Find(c.entries, own)))
  {
    FindIffCached(c.entries, focus);
    FindIffCached(c.entries, own);
    if c.current.Some? {
      FindUnique(c.entries, c.current.value);
    }
  }

  /** What a selection ends with, the focus being read again by the refresh: an item exactly
      if the wanted layout was cached, or the layout focused by then is listed and was
      cached or loads; and that item is of the wanted layout exactly if that was cached or
      is the one focused by then. */
  ghost predicate SelectsExactly(os: Os, c: Cache, id: Hkl, current: Option<Entry>) {
    && (current.Some? <==>
          || Cached(c.entries, id)
          || (os.focus != NULL && os.focus in os.layouts
              && (Cached(c.entries, os.focus) || os.load(os.focus) == Loaded)))
    && (current.Some? ==> (current.value.id == id <==> Cached(c.entries, id) || os.focus == id))
  }

  lemma SelectFinds(os: Os, c: Cache, focus: Hkl, own: Hkl)
    requires WellFormed(c) && DistinctIds(c.entries) && DistinctLayouts(os.layouts)
    requires Select(os, c, focus, own).Some?
    ensures SelectsExactly(os, c, if focus == NULL then own else focus, Select(os, c, focus, own).value.current)
  {
    SelectAgrees(os, c, focus, own);
    var id := Wanted(focus, own);
    var r := Select(os, c, focus, own).value;
    FindIsFirst(c.entries, id);
    if !Cached(c.entries, id) {
      FindIffCached(c.entries, id);
      FindIsFirst(r.entries, os.focus);
      FindIffCached(r.entries, os.focus);
      if os.layouts != [] {
        RefreshIds(os, c.(current := None), os.focus);
      }
    }
  }

  /** A focus that does not change under way is the case in which the selected item is
      always of the wanted layout. */
  lemma SteadyFocus(os: Os, c: Cache, focus: Hkl, own: Hkl)
    requires WellFormed(c) && DistinctIds(c.entries) && DistinctLayouts(os.layouts)
    requires Select(os, c, focus, own).Some? && os.focus == focus
    ensures var r := Select(os, c, focus, own).value;
            r.current.Some? ==> r.current.value.id == if focus == NULL then own else focus
  {
    SelectFinds(os, c, focus, own);
  }

  /** A focus that changes from layout 1 to layout 2 between the two readings leaves
      layout 2 selected for a key of layout 1. */
  lemma ChangedFocusSelected(load: Hkl -> Outcome)
    requires load(2) == Loaded
    ensures var r := Select(Os([2], 2, load), EMPTY, 1, 0);
            r.Some? && r.value.current.Some? && r.value.current.value.id == 2
  {
    SelectFinds(Os([2], 2, load), EMPTY, 1, 0);
    SelectAgrees(Os([2], 2, load), EMPTY, 1, 0);
    FindIsFirst(Select(Os([2], 2, load), EMPTY, 1, 0).value.entries, 2);
  }

  // ---------- Runs ----------

  ghost predicate DistinctRun(ops: seq<Op>) {
    forall op <- ops :: !op.Drop? ==> DistinctLayouts(op.os.layouts)
  }

  /** Over every run in which the system never lists a layout twice, the cached ids are distinct. */
  lemma {:induction false} RunDistinct(ops: seq<Op>)
    requires DistinctRun(ops) && Run(ops).Some?
    ensures DistinctIds(Run(ops).value.entries)
  {
    if ops != [] {
      var before, op := ops[..|ops| - 1], ops[|ops| - 1];
      assert op in ops && forall o <- before :: o in ops;
      RunDistinct(before);
      RunWellFormed(before);
      var c := Run(before).value;
      match op
      case Load(os) => RefreshDistinct(os, c);
      case Choose(os, focus, own) =>
        if Refresh(os, c.(current := None)).Some? {
          RefreshDistinct(os, c.(current := None));
        }
      case Drop =>
    }
  }

  /** Over every such run, whatever the focus does, a selection at its end selects exactly
      as above, and a live item. */
  lemma RunSelection(ops: seq<Op>, os: Os, focus: Hkl, own: Hkl)
    requires DistinctRun(ops) && DistinctLayouts(os.layouts)
    requires Run(ops).Some? && Select(os, Run(ops).value, focus, own).Some?
    ensures var c := Run(ops).value;
            var r := Select(os, c, focus, own).value;
            && SelectsExactly(os, c, if focus == NULL then own else focus, r.current)
            && (r.current.Some? ==> r.current.value in r.entries)
  {
    RunWellFormed(ops);
    RunDistinct(ops);
    SelectWellFormed(os, Run(ops).value, focus, own);
    SelectFinds(os, Run(ops).value, focus, own);
  }

  // ---------- Libraries ----------

  lemma {:induction false} ListedLength(entries: seq<Entry>, layouts: seq<Hkl>)
    ensures |Listed(entries, layouts)| <= |entries|
    ensures |Listed(entries, layouts)| == |entries| <==> forall e <- entries :: e.id in layouts
  {
    if entries != [] {
      var before, e := entries[..|entries| - 1], entries[|entries| - 1];
      ListedLength(before, layouts);
      assert forall d :: d in entries <==> d in before || d == e;
    }
  }

  lemma {:induction false} InsertAllEvicted(os: Os, c: Cache, list: seq<Hkl>)
    ensures InsertAll(os, c, list).evicted == c.evicted
  {
    if list != [] {
      InsertAllEvicted(os, c, list[..|list| - 1]);
    }
  }

  /** A refresh leaves one library open for each item it evicts. */
  lemma RefreshEvicted(os: Os, c: Cache)
    requires WellFormed(c) && DistinctIds(c.entries) && DistinctLayouts(os.layouts)
    requires os.layouts != [] && Refresh(os, c).Some?
    ensures |Listed(c.entries, os.layouts)| <= |c.entries|
    ensures Refresh(os, c).value.evicted == c.evicted + |c.entries| - |Listed(c.entries, os.layouts)|
  {
    SweepContents(os, c.entries, c.current);
    ListedLength(c.entries, os.layouts);
    InsertAllEvicted(os, AfterSweep(os, c), Sweep(os, c.entries, c.current).list);
  }

  /** The call refreshes the cache: a load does, a selection if it finds nothing. */
  predicate Refreshes(c: Cache, op: Op) {
    match op
    case Load(_) => true
    case Choose(_, focus, own) => !Cached(c.entries, if focus == NULL then own else focus)
    case Drop => false
  }

  /** The call refreshes against a list that misses a cached layout. */
  predicate Unlists(c: Cache, op: Op) {
    Refreshes(c, op) && op.os.layouts != [] && exists e <- c.entries :: e.id !in op.os.layouts
  }

  /** No call of the run did so. */
  ghost predicate NothingUnlisted(ops: seq<Op>)
    requires Run(ops).Some?
  {
    ops == [] || (NothingUnlisted(ops[..|ops| - 1])
                  && !Unlists(Run(ops[..|ops| - 1]).value, ops[|ops| - 1]))
  }

  lemma ApplyEvicted(c: Cache, op: Op)
    requires WellFormed(c) && DistinctIds(c.entries) && (!op.Drop? ==> DistinctLayouts(op.os.layouts))
    requires Apply(c, op).Some?
    ensures Apply(c, op).value.evicted >= c.evicted
    ensures Apply(c, op).value.evicted == c.evicted <==> !Unlists(c, op)
  {
    match op
    case Drop =>
    case Load(os) =>
      if os.layouts != [] {
        RefreshEvicted(os, c);
        ListedLength(c.entries, os.layouts);
      }
    case Choose(os, focus, own) =>
      SelectAgrees(os, c, focus, own);
      FindIffCached(c.entries, Wanted(focus, own));
      if os.layouts != [] && !Cached(c.entries, Wanted(focus, own)) {
        RefreshEvicted(os, c.(current := None));
        ListedLength(c.entries, os.layouts);
      }
  }

  lemma {:induction false} RunEvicted(ops: seq<Op>)
    requires DistinctRun(ops) && Run(ops).Some?
    ensures Run(ops).value.evicted == 0 <==> NothingUnlisted(ops)
  {
    if ops != [] {
      var before, op := ops[..|ops| - 1], ops[|ops| - 1];
      assert op in ops && forall o <- before :: o in ops;
      RunEvicted(before);
      RunWellFormed(before);
      RunDistinct(before);
      ApplyEvicted(Run(before).value, op);
    }
  }

  /** After unloading at the end of any run, no keyboard library is left open exactly if no
      refresh of the run found a cached layout missing from a non-empty list. */
  lemma LibrariesReturned(ops: seq<Op>)
    requires DistinctRun(ops) && Run(ops).Some?
    ensures Unload(Run(ops).value).libraries == 0 <==> NothingUnlisted(ops)
  {
    RunWellFormed(ops);
    RunEvicted(ops);
  }

  /** Loading layouts 1 and 2, then 1 alone, and unloading leaves one library open. */
  lemma EvictedLibraryLeaks(load: Hkl -> Outcome)
    requires load(1) == Loaded && load(2) == Loaded
    ensures var r := Run([Load(Os([1, 2], 1, load)), Load(Os([1], 1, load)), Drop]);
            r.Some? && r.value.entries == [] && r.value.libraries == 1
  {
    var os, next := Os([1, 2], 1, load), Os([1], 1, load);
    FirstLoad(os);
    var c := Refresh(os, EMPTY).value;
    RefreshWellFormed(os, EMPTY);
    RefreshDistinct(os, EMPTY);
    FirstEvicted(os);
    assert |c.entries| == |Ids(c.entries)| == 2;
    assert c.entries[0].id == Ids(c.entries)[0] && c.entries[1].id == Ids(c.entries)[1];
    RefreshEvicted(next, c);
    OneListed(c.entries);
    RefreshWellFormed(next, c);
    LoadTwiceAndDrop(os, next);
  }

  lemma FirstEvicted(os: Os)
    requires os.layouts == [1, 2] && Refresh(os, EMPTY).Some?
    ensures Refresh(os, EMPTY).value.evicted == 0
  {
    assert Listed([], os.layouts) == [];
    RefreshEvicted(os, EMPTY);
  }

  lemma OneListed(entries: seq<Entry>)
    requires |entries| == 2 && entries[0].id == 1 && entries[1].id == 2
    ensures |Listed(entries, [1])| == 1
  {
    assert entries[..1][..0] == [];
    assert Listed(entries[..1], [1]) == [entries[0]];
  }

  lemma LoadTwiceAndDrop(os: Os, next: Os)
    requires Run([Load(os)]) == Refresh(os, EMPTY) && Refresh(os, EMPTY).Some?
    requires Refresh(next, Refresh(os, EMPTY).value).Some?
    ensures Run([Load(os), Load(next), Drop]) == Some(Unload(Refresh(next, Refresh(os, EMPTY).value).value))
  {
    hide Refresh;
    var three := [Load(os), Load(next), Drop];
    assert three[..2] == [Load(os), Load(next)];
    assert three[..2][..1] == [Load(os)];
  }

  /** Removing the first cached layout from the system crashes the next refresh. */
  lemma HeadEvictionCrashes(load: Hkl -> Outcome)
    requires load(1) == Loaded && load(2) == Loaded
    ensures Run([Load(Os([1, 2], 1, load)), Load(Os([2], 2, load))]) == None
  {
    var os := Os([1, 2], 1, load);
    FirstLoad(os);
    var c := Refresh(os, EMPTY).value;
    assert c.entries[0].id == Ids(c.entries)[0];
    var both := [Load(os), Load(Os([2], 2, load))];
    assert both[..1] == [Load(os)];
  }

  lemma FirstLoad(os: Os)
    requires os.layouts == [1, 2] && os.load(1) == Loaded && os.load(2) == Loaded
    ensures Refresh(os, EMPTY).Some? && Ids(Refresh(os, EMPTY).value.entries) == [1, 2]
    ensures Run([Load(os)]) == Refresh(os, EMPTY)
  {
    LoadableTwo(os, 1, 2);
    var start := AfterSweep(os, EMPTY);
    assert start.entries == [] && Sweep(os, [], None).list == [1, 2];
    hide InsertAll, Loadable, AfterSweep, Sweep;
    InsertAllContents(os, start, [1, 2]);
    assert Ids(start.entries) == [];
    assert [Load(os)][..0] == [];
  }

  lemma LoadableTwo(os: Os, a: Hkl, b: Hkl)
    requires a != NULL && b != NULL && os.load(a) == Loaded && os.load(b) == Loaded
    ensures Loadable(os, [a, b]) == [a, b]
  {
    assert [a, b][..1] == [a] && [a][..0] == [];
    assert Loadable(os, [a]) == [a];
  }
}
