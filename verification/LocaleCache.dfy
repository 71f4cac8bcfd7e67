/** The keyboard-locale cache itself: a singly linked heap list that a refresh sweeps
    and extends in place, with a current pointer and manual allocation. Nodes are read
    through Id and Next, written through SetNext and freed through Free, all of which
    demand that the node has been allocated and not been freed. */
module LocaleCache {
  import opened Options
  import opened LocaleCacheSpec

  class Node {
    ghost const serial: nat
    const id: Hkl
    var next: Node?

    constructor (ghost serial: nat, id: Hkl)
      ensures this.serial == serial && this.id == id && next == null
    {
      this.serial := serial;
      this.id := id;
      next := null;
    }
  }

  ghost function EntryOf(n: Node): Entry {
    Entry(n.serial, n.id)
  }

  ghost function Entries(nodes: seq<Node>): seq<Entry> {
    seq(|nodes|, i requires 0 <= i < |nodes| => EntryOf(nodes[i]))
  }

  lemma EntriesConcat(a: seq<Node>, b: seq<Node>)
    ensures Entries(a + b) == Entries(a) + Entries(b)
  {}

  ghost function At(nodes: seq<Node>, k: nat): Node? {
    if k < |nodes| then nodes[k] else null
  }

  ghost function LastOf(nodes: seq<Node>): Node? {
    if nodes == [] then null else nodes[|nodes| - 1]
  }

  /** The nodes are chained in this order from the head on, ending in null. */
  ghost predicate Linked(head: Node?, nodes: seq<Node>)
    reads nodes
  {
    && head == At(nodes, 0)
    && forall i {:trigger nodes[i].next} :: 0 <= i < |nodes| ==> nodes[i].next == At(nodes, i + 1)
  }

  /** Later nodes were allocated later; in particular no node occurs twice. */
  ghost predicate Increasing(nodes: seq<Node>) {
    forall i, j :: 0 <= i < j < |nodes| ==> nodes[i].serial < nodes[j].serial
  }

  /** The bookkeeping of a list: its nodes are exactly the live ones, each allocated once,
      the current pointer is null or points into it, and the calls are accounted for. */
  ghost predicate Sound(nodes: seq<Node>, live: set<Node>, current: Node?, mallocs: nat, frees: nat, libraries: nat,
                        evicted: nat) {
    && Increasing(nodes)
    && (forall n <- live :: n in nodes) && (forall n <- nodes :: n in live)
    && (forall n <- nodes :: n.serial < mallocs && n.id != NULL)
    && (current == null || current in nodes)
    && mallocs == frees + |nodes|
    && libraries == |nodes| + evicted
  }

  ghost function Cut(nodes: seq<Node>, k: nat): seq<Node>
    requires k < |nodes|
  {
    nodes[..k] + nodes[k + 1..]
  }

  lemma CutParts(nodes: seq<Node>, k: nat)
    requires k < |nodes|
    ensures |Cut(nodes, k)| == |nodes| - 1 && Cut(nodes, k)[..k] == nodes[..k] && Cut(nodes, k)[k..] == nodes[k + 1..]
  {}

  lemma CutSound(nodes: seq<Node>, k: nat, live: set<Node>, current: Node?, mallocs: nat, frees: nat, libraries: nat,
                 evicted: nat)
    requires Sound(nodes, live, current, mallocs, frees, libraries, evicted) && k < |nodes|
    ensures Sound(Cut(nodes, k), live - {nodes[k]}, if current == nodes[k] then null else current,
                  mallocs, frees + 1, libraries, evicted + 1)
    ensures forall n <- Cut(nodes, k) :: n in nodes
  {
    var cut := Cut(nodes, k);
    forall i | 0 <= i < |cut| ensures cut[i] in nodes && cut[i] != nodes[k] {
      assert cut[i] == nodes[if i < k then i else i + 1];
    }
    forall i | 0 <= i < |nodes| && i != k ensures nodes[i] in cut {
      assert nodes[i] == cut[if i < k then i else i - 1];
    }
  }

  lemma SnocSound(nodes: seq<Node>, item: Node, live: set<Node>, current: Node?, mallocs: nat, frees: nat,
                  libraries: nat, evicted: nat)
    requires Sound(nodes, live, current, mallocs, frees, libraries, evicted) && EntryOf(item) == Entry(mallocs, item.id)
    requires item.id != NULL
    ensures Sound(nodes + [item], live + {item}, current, mallocs + 1, frees, libraries + 1, evicted)
    ensures Sound(nodes + [item], live + {item}, item, mallocs + 1, frees, libraries + 1, evicted)
  {}

  lemma SoundBalance(nodes: seq<Node>, live: set<Node>, current: Node?, mallocs: nat, frees: nat, libraries: nat,
                     evicted: nat)
    requires Sound(nodes, live, current, mallocs, frees, libraries, evicted)
    ensures Sound(nodes, live, current, mallocs + 1, frees + 1, libraries, evicted)
  {}

  lemma SoundCurrent(nodes: seq<Node>, live: set<Node>, current: Node?, mallocs: nat, frees: nat, libraries: nat,
                     evicted: nat)
    requires Sound(nodes, live, current, mallocs, frees, libraries, evicted)
    ensures Sound(nodes, live, null, mallocs, frees, libraries, evicted)
    ensures forall n <- nodes :: Sound(nodes, live, n, mallocs, frees, libraries, evicted)
  {}

  lemma HeadSound(nodes: seq<Node>, live: set<Node>, mallocs: nat, frees: nat, libraries: nat, evicted: nat)
    requires Sound(nodes, live, null, mallocs, frees, libraries, evicted) && nodes != []
    ensures nodes[0] in live && libraries > 0
    ensures Sound(nodes[1..], live - {nodes[0]}, null, mallocs, frees + 1, libraries - 1, evicted)
  {
    forall i | 0 < i < |nodes| ensures nodes[i] in nodes[1..] && nodes[i] != nodes[0] {
      assert nodes[i] == nodes[1..][i - 1];
    }
  }

  lemma TailLinked(head: Node?, nodes: seq<Node>)
    requires Linked(head, nodes) && nodes != []
    ensures Linked(nodes[0].next, nodes[1..])
  {
    forall i | 0 <= i < |nodes[1..]| ensures nodes[1..][i].next == At(nodes[1..], i + 1) {
      assert nodes[1..][i] == nodes[i + 1];
    }
  }

  lemma SoundMember(nodes: seq<Node>, k: nat, live: set<Node>, current: Node?, mallocs: nat, frees: nat,
                    libraries: nat, evicted: nat)
    requires Sound(nodes, live, current, mallocs, frees, libraries, evicted) && k < |nodes|
    ensures nodes[k] in live && nodes[k] in nodes && nodes[k].id != NULL
    ensures forall i :: 0 <= i < |nodes| && i != k ==> nodes[i] != nodes[k]
    ensures Sound(nodes, live, nodes[k], mallocs, frees, libraries, evicted)
  {}

  lemma SuffixStep(a: seq<Node>, k: nat, b: seq<Node>, i: nat)
    requires k < |a| && i <= |b| && a[k..] == b[i..]
    ensures i < |b| && a[k] == b[i] && a[k + 1..] == b[i + 1..] && a[..k + 1] == a[..k] + [a[k]]
  {
    assert a[k] == a[k..][0] && a[k + 1..] == a[k..][1..] && b[i + 1..] == b[i..][1..];
  }

  /** With the node before it pointing past it, a node is out of the chain. */
  lemma CutLinked(head: Node?, nodes: seq<Node>, k: nat)
    requires 0 < k < |nodes| && head == nodes[0]
    requires nodes[k - 1].next == At(nodes, k + 1)
    requires forall i {:trigger nodes[i].next} :: 0 <= i < |nodes| && i != k - 1 ==> nodes[i].next == At(nodes, i + 1)
    ensures Linked(head, Cut(nodes, k))
  {
    var cut := Cut(nodes, k);
    forall i | 0 <= i < |cut| ensures cut[i].next == At(cut, i + 1) {
      assert cut[i] == nodes[if i < k then i else i + 1];
    }
  }

  /** With the last node pointing to it, a new node ending in null extends the chain. */
  lemma SnocLinked(head: Node?, nodes: seq<Node>, item: Node)
    requires item.next == null && head == if nodes == [] then item else nodes[0]
    requires forall i {:trigger nodes[i].next} :: 0 <= i < |nodes| ==>
               nodes[i].next == if i + 1 < |nodes| then nodes[i + 1] else item
    ensures Linked(head, nodes + [item])
  {
    var all := nodes + [item];
    forall i | 0 <= i < |all| ensures all[i].next == At(all, i + 1) {
      assert i < |nodes| ==> all[i] == nodes[i];
    }
  }

  /** The first occurrence of an id is nulled out of the list, if there is one. */
  method Unlist(list: array<Hkl>, id: Hkl) returns (isLoaded: bool)
    modifies list
    ensures isLoaded <==> id in old(list[..])
    ensures list[..] == if isLoaded then Mark(old(list[..]), id) else old(list[..])
  {
    isLoaded := false;
    var i := 0;
    while i < list.Length && !isLoaded
      invariant 0 <= i <= list.Length
      invariant !isLoaded ==> list[..] == old(list[..]) && id !in list[..i]
      invariant isLoaded ==> id in old(list[..]) && list[..] == Mark(old(list[..]), id)
    {
      if id == list[i] {
        MarkAt(list[..], id, i);
        assert list[..][i] == id;
        list[i] := NULL;
        isLoaded := true;
      }
      i := i + 1;
    }
    assert list[..list.Length] == list[..];
  }

  lemma {:induction false} MarkAt(list: seq<Hkl>, id: Hkl, i: nat)
    requires i < |list| && list[i] == id && id !in list[..i]
    ensures Mark(list, id) == list[i := NULL]
  {
    if i > 0 {
      assert list[0] in list[..i];
      assert list[1..][..i - 1] == list[1..i];
      MarkAt(list[1..], id, i - 1);
    }
  }

  ghost function OptionOf(n: Node?): Option<Entry> {
    if n == null then None else Some(EntryOf(n))
  }

  /** Sweeping the first i of all nodes has kept some of them, and left a list and a current node. */
  ghost predicate SweptTo(os: Os, all: seq<Node>, start: Option<Entry>, i: nat, kept: seq<Node>, list: seq<Hkl>,
                          current: Node?)
    requires i <= |all|
  {
    Sweep(os, Entries(all[..i]), start) == Swept(Entries(kept), list, OptionOf(current))
  }

  lemma SweptKeep(os: Os, all: seq<Node>, start: Option<Entry>, i: nat, kept: seq<Node>, list: seq<Hkl>, current: Node?)
    requires i < |all| && SweptTo(os, all, start, i, kept, list, current) && all[i].id in list
    ensures SweptTo(os, all, start, i + 1, kept + [all[i]], Mark(list, all[i].id),
                    if all[i].id == os.focus then all[i] else current)
  {
    assert Entries(all[..i + 1]) == Entries(all[..i]) + [EntryOf(all[i])];
    assert Entries(kept + [all[i]]) == Entries(kept) + [EntryOf(all[i])];
  }

  lemma SweptEvict(os: Os, all: seq<Node>, start: Option<Entry>, i: nat, kept: seq<Node>, list: seq<Hkl>,
                   current: Node?)
    requires i < |all| && SweptTo(os, all, start, i, kept, list, current) && all[i].id !in list
    requires Increasing(all) && (current != null ==> current in all)
    ensures SweptTo(os, all, start, i + 1, kept, list, if current == all[i] then null else current)
  {
    assert Entries(all[..i + 1]) == Entries(all[..i]) + [EntryOf(all[i])];
    if current != null && current != all[i] {
      var j :| 0 <= j < |all| && all[j] == current;
      assert current.serial != all[i].serial;
    }
  }

  class LocaleList {
    var first: Node?
    var current: Node?
    ghost var nodes: seq<Node>
    ghost var live: set<Node>
    ghost var mallocs: nat
    ghost var frees: nat
    ghost var libraries: nat
    ghost var evicted: nat

    /** The list is acyclic and ends in null, and its bookkeeping is sound. */
    ghost predicate Valid()
      reads this, nodes
    {
      Linked(first, nodes) && Sound(nodes, live, current, mallocs, frees, libraries, evicted)
    }

    lemma Member(k: nat)
      requires Valid() && k < |nodes|
      ensures nodes[k] in live && nodes[k] in nodes && nodes[k].id != NULL
      ensures forall i :: 0 <= i < |nodes| && i != k ==> nodes[i] != nodes[k]
      ensures Sound(nodes, live, nodes[k], mallocs, frees, libraries, evicted)
      ensures nodes[k].next == At(nodes, k + 1)
    {
      SoundMember(nodes, k, live, current, mallocs, frees, libraries, evicted);
    }

    ghost function Value(): Cache
      reads this
    {
      Cache(Entries(nodes), OptionOf(current), mallocs, frees, libraries, evicted)
    }

    constructor ()
      ensures Valid() && Value() == EMPTY
    {
      first, current := null, null;
      nodes, live := [], {};
      mallocs, frees, libraries, evicted := 0, 0, 0, 0;
    }

    /** Reading a node, which must not have been freed. */
    function Id(n: Node): Hkl
      requires n in live
      reads this
    {
      n.id
    }

    function Next(n: Node): Node?
      requires n in live
      reads this, n
    {
      n.next
    }

    /** Writing a node, under the same condition. */
    method SetNext(n: Node, next: Node?)
      requires n in live
      modifies n`next
      ensures n.next == next
    {
      n.next := next;
    }

    /** malloc: a node that was not live before. */
    method Malloc(id: Hkl) returns (n: Node)
      modifies this`live, this`mallocs
      ensures fresh(n) && EntryOf(n) == Entry(old(mallocs), id) && n.next == null
      ensures live == old(live) + {n} && mallocs == old(mallocs) + 1
    {
      n := new Node(mallocs, id);
      live := live + {n};
      mallocs := mallocs + 1;
    }

    /** free: a node must be live, so none is freed twice. */
    ghost method Free(n: Node)
      requires n in live
      modifies this`live, this`frees
      ensures live == old(live) - {n} && frees == old(frees) + 1
    {
      live := live - {n};
      frees := frees + 1;
    }

    lemma ValidIsWellFormed()
      requires Valid()
      ensures WellFormed(Value())
    {
      if current != null {
        var i :| 0 <= i < |nodes| && nodes[i] == current;
        assert Entries(nodes)[i] == EntryOf(current);
      }
    }

    /** Unlinks and frees the item after `previous`, clearing the current pointer if it
        pointed there. */
    method Evict(previous: Node, item: Node, ghost k: nat)
      requires Valid() && 0 < k < |nodes| && previous == nodes[k - 1] && item == nodes[k]
      modifies this, previous
      ensures Valid() && |nodes| == |old(nodes)| - 1
      ensures nodes[..k] == old(nodes[..k]) && nodes[k..] == old(nodes[k + 1..])
      ensures forall n <- nodes :: n in old(nodes)
      ensures current == if old(current) == item then null else old(current)
      ensures frees == old(frees) + 1 && evicted == old(evicted) + 1
      ensures mallocs == old(mallocs) && libraries == old(libraries)
    {
      hide Sound, Cut, Increasing;
      Member(k - 1);
      Member(k);
      CutParts(nodes, k);
      SetNext(previous, Next(item));
      CutLinked(first, nodes, k);
      CutSound(nodes, k, live, current, mallocs, frees, libraries, evicted);
      if item == current {
        current := null;
      }
      Free(item);
      evicted := evicted + 1;
      nodes := Cut(nodes, k);
    }

    /** Allocates an item, links it after `previous` (the last one, or none in an empty
        list), and makes it current if it is the focused layout. */
    method Append(previous: Node?, id: Hkl, focus: Hkl) returns (item: Node)
      requires Valid() && id != NULL && previous == LastOf(nodes)
      modifies this, if previous == null then {} else {previous}
      ensures Valid() && fresh(item) && nodes == old(nodes) + [item]
      ensures EntryOf(item) == Entry(old(mallocs), id)
      ensures current == if id == focus then item else old(current)
      ensures mallocs == old(mallocs) + 1 && libraries == old(libraries) + 1
      ensures frees == old(frees) && evicted == old(evicted)
    {
      hide Sound;
      if previous != null {
        Member(|nodes| - 1);
      }
      item := Malloc(id);
      SnocSound(nodes, item, old(live), current, old(mallocs), frees, libraries, evicted);
      libraries := libraries + 1;
      if previous == null {
        first := item;
      } else {
        SetNext(previous, item);
      }
      SnocLinked(first, nodes, item);
      if Id(item) == focus {
        current := item;
      }
      nodes := nodes + [item];
    }

    /** Between two items of the sweep: the first k nodes are what was kept of the first i
        of all nodes, and the rest has not been touched. */
    ghost predicate Sweeping(os: Os, all: seq<Node>, start: Cache, i: nat, k: nat, list: seq<Hkl>)
      reads this, nodes
    {
      && Valid() && k <= |nodes| && k <= i <= |all| && nodes[k..] == all[i..] && (k == 0 ==> i == 0)
      && (forall n <- nodes :: n in all) && Increasing(all)
      && mallocs == start.mallocs && libraries == start.libraries
      && frees == start.frees + (i - k) && evicted == start.evicted + (i - k)
      && SweptTo(os, all, start.current, i, nodes[..k], list, current)
    }

    /** An item that is still listed stays. */
    method Keep(os: Os, item: Node, ghost all: seq<Node>, ghost start: Cache, ghost i: nat, ghost k: nat,
                ghost list: seq<Hkl>)
      requires Sweeping(os, all, start, i, k, list) && item == At(nodes, k) && item.id in list
      modifies this`current
      ensures Sweeping(os, all, start, i + 1, k + 1, Mark(list, item.id)) && nodes[k] == item
      ensures item in live && item.next == At(nodes, k + 1)
    {
      hide Sound;
      Member(k);
      SuffixStep(nodes, k, all, i);
      SweptKeep(os, all, start.current, i, nodes[..k], list, current);
      if Id(item) == os.focus {
        current := item;
      }
    }

    /** An item that is no longer listed goes. */
    method Remove(os: Os, previous: Node, item: Node, ghost all: seq<Node>, ghost start: Cache, ghost i: nat,
                  ghost k: nat, ghost list: seq<Hkl>)
      requires Sweeping(os, all, start, i, k, list) && item == At(nodes, k) && item.id !in list
      requires 0 < k && previous == nodes[k - 1]
      modifies this, previous
      ensures Sweeping(os, all, start, i + 1, k, list) && nodes[k - 1] == previous
      ensures previous in live && previous.next == At(nodes, k)
    {
      SuffixStep(nodes, k, all, i);
      SweptEvict(os, all, start.current, i, nodes[..k], list, current);
      Evict(previous, item, k);
      assert nodes[k - 1] == nodes[..k][k - 1];
    }

    lemma Starting(os: Os)
      requires Valid()
      ensures Sweeping(os, nodes, Value(), 0, 0, os.layouts) && first == At(nodes, 0)
      ensures LastOf(nodes[..0]) == null
    {
      assert nodes[..0] == [];
    }

    lemma Midway(os: Os, all: seq<Node>, start: Cache, i: nat, k: nat, list: seq<Hkl>)
      requires Sweeping(os, all, start, i, k, list)
      ensures k <= |nodes| && i <= |all| && (k == |nodes| <==> i == |all|)
      ensures LastOf(nodes[..k]) != null ==> LastOf(nodes[..k]) in all
    {
      assert |nodes[k..]| == |all[i..]|;
      assert k > 0 ==> LastOf(nodes[..k]) == nodes[k - 1] && nodes[k - 1] in nodes;
    }

    /** One turn of the first loop: keeps or removes the item. It stops, not ok, where the
        source would write through the null previous item. */
    method SweepItem(os: Os, list: array<Hkl>, previous: Node?, item: Node,
                     k: nat,
                     ghost all: seq<Node>, ghost start: Cache, ghost i: nat)
      returns (previous': Node?, next: Node?, k': nat, ok: bool)
      requires Sweeping(os, all, start, i, k, list[..]) && item == At(nodes, k) && previous == LastOf(nodes[..k])
      modifies this, if previous == null then {} else {previous}, list
      ensures ok <==> k > 0 || item.id in old(list[..])
      ensures ok ==> Sweeping(os, all, start, i + 1, k', list[..]) && 0 < k'
      ensures ok ==> previous' == LastOf(nodes[..k']) && next == At(nodes, k')
    {
      hide Sound, Linked, SweptTo;
      ghost var left := list[..];
      Member(k);
      previous', next, k', ok := previous, null, k, true;
      var isLoaded := Unlist(list, Id(item));
      if isLoaded {
        Keep(os, item, all, start, i, k, left);
        previous', k' := item, k + 1;
        next := Next(item);
      } else if previous == null {
        ok := false;
      } else {
        Remove(os, previous, item, all, start, i, k, left);
        next := Next(previous);
      }
    }

    /** The first loop of refresh_locale_list: removes the items no longer listed. */
    method SweepList(os: Os, list: array<Hkl>) returns (previous: Node?, count: nat, ok: bool)
      requires Valid() && list[..] == os.layouts && os.layouts != []
      modifies this, nodes, list
      ensures ok ==> Sweeping(os, old(nodes), old(Value()), |old(nodes)|, |nodes|, list[..])
      ensures ok ==> previous == LastOf(nodes) && count == |nodes|
      ensures ok <==> (old(nodes) == [] || old(nodes)[0].id in os.layouts)
    {
      hide Valid, Sweeping, Entries;
      ghost var all, start := nodes, Value();
      ghost var i: nat := 0;
      Starting(os);
      var item := first;
      previous, count, ok := null, 0, true;
      while item != null
        invariant i <= |all| && count <= |nodes| && Sweeping(os, all, start, i, count, list[..])
        invariant item == At(nodes, count) && previous == LastOf(nodes[..count])
        invariant i > 0 ==> count > 0 && all[0].id in os.layouts
        invariant i == 0 ==> count == 0 && list[..] == os.layouts && nodes == all
        decreases |all| - i
      {
        Midway(os, all, start, i, count, list[..]);
        previous, item, count, ok := SweepItem(os, list, previous, item, count, all, start, i);
        if !ok {
          return;
        }
        i := i + 1;
        Midway(os, all, start, i, count, list[..]);
      }
      Midway(os, all, start, i, count, list[..]);
      assert nodes[..count] == nodes;
    }

    /** A finished sweep is the sweep of the specification. */
    lemma SweepFinished(os: Os, all: seq<Node>, start: Cache, list: seq<Hkl>)
      requires start.entries == Entries(all) && Sweeping(os, all, start, |all|, |nodes|, list)
      ensures Valid() && Value() == AfterSweep(os, start) && list == Sweep(os, start.entries, start.current).list
      ensures forall n <- nodes :: n in all
    {
      assert nodes[..|nodes|] == nodes && all[..|all|] == all;
    }

    /** One turn of the second loop: tries to load a layout that was not in the cache. */
    method InsertLayout(os: Os, id: Hkl, previous: Node?, count: nat) returns (previous': Node?, count': nat)
      requires Valid() && previous == LastOf(nodes) && count == |nodes|
      modifies this, if previous == null then {} else {previous}
      ensures Valid() && Value() == Insert(os, old(Value()), id)
      ensures previous' == LastOf(nodes) && count' == |nodes|
      ensures forall n <- nodes :: n in old(nodes) || fresh(n)
    {
      hide Sound, Linked;
      previous', count' := previous, count;
      if id != NULL {
        match os.load(id) {
          case Loaded =>
            EntriesConcat(nodes, []);
            var item := Append(previous, id, os.focus);
            EntriesConcat(old(nodes), [item]);
            assert Entries([item]) == [EntryOf(item)];
            previous', count' := item, count + 1;
          case NoDescriptor =>
            // The library is opened and closed again between the two.
            SoundBalance(nodes, live, current, mallocs, frees, libraries, evicted);
            var unused := Malloc(id);
            Free(unused);
            assert live == old(live);
          case NoLayoutFile =>
          case NoSystemDirectory =>
        }
      }
    }

    /** The second loop of refresh_locale_list: inserts anything new. */
    method InsertList(os: Os, list: array<Hkl>, previous: Node?, count: nat) returns (count': nat)
      requires Valid() && previous == LastOf(nodes) && count == |nodes|
      modifies this, nodes
      ensures Valid() && Value() == InsertAll(os, old(Value()), list[..]) && count' == |nodes|
      ensures forall n <- nodes :: n in old(nodes) || fresh(n)
    {
      hide Sound, Linked, Entries;
      var last := previous;
      count' := count;
      assert list[..0] == [];
      for i := 0 to list.Length
        invariant Valid() && last == LastOf(nodes) && count' == |nodes|
        invariant forall n <- nodes :: n in old(nodes) || fresh(n)
        invariant Value() == InsertAll(os, old(Value()), list[..i])
      {
        assert last != null ==> last in nodes;
        assert list[..i + 1][..i] == list[..i];
        last, count' := InsertLayout(os, list[i], last, count');
      }
      assert list[..list.Length] == list[..];
    }

    /** refresh_locale_list: returns the number of locales cached, or is not ok where the
        source writes through a null pointer. */
    method RefreshList(os: Os) returns (count: nat, ok: bool)
      requires Valid()
      modifies this, nodes
      ensures ok <==> Refresh(os, old(Value())).Some?
      ensures ok ==> Valid() && Value() == Refresh(os, old(Value())).value
      ensures ok ==> count == if os.layouts == [] then 0 else |Value().entries|
      ensures ok ==> forall n <- nodes :: n in old(nodes) || fresh(n)
    {
      hide Sound, Linked, SweptTo;
      count, ok := 0, true;
      if os.layouts != [] {
        ghost var start, all := Value(), nodes;
        var list := new Hkl[|os.layouts|](i requires 0 <= i < |os.layouts| => os.layouts[i]);
        assert list[..] == os.layouts;
        assert all != [] ==> start.entries[0].id == all[0].id;
        var previous;
        previous, count, ok := SweepList(os, list);
        if ok {
          SweepFinished(os, all, start, list[..]);
          assert forall i :: 0 <= i < |nodes| ==> nodes[i] in old(nodes);
          ghost var kept := nodes;
          count := InsertList(os, list, previous, count);
          assert forall n <- nodes :: n in kept || fresh(n);
        }
      }
    }

    /** The locale selection of keycode_to_unicode: the fast path, the search, and the
        refresh when the search fails. */
    method SelectLocale(os: Os, focus: Hkl, own: Hkl) returns (ok: bool)
      requires Valid()
      modifies this, nodes
      ensures ok <==> Select(os, old(Value()), focus, own).Some?
      ensures ok ==> Valid() && Value() == Select(os, old(Value()), focus, own).value
      ensures ok ==> forall n <- nodes :: n in old(nodes) || fresh(n)
    {
      hide Sound, Linked;
      ok := true;
      var id := focus;
      if id == NULL {
        id := own;
      }
      CurrentLive();
      if current == null || Id(current) != id {
        var item := Search(id);
        SoundCurrent(nodes, live, current, mallocs, frees, libraries, evicted);
        current := item;
        if item == null {
          var _, done := RefreshList(os);
          ok := done;
        }
      }
    }

    lemma CurrentLive()
      requires Valid()
      ensures current != null ==> current in live
    {}

    /** The linear search for a layout. */
    method Search(id: Hkl) returns (item: Node?)
      requires Valid()
      ensures OptionOf(item) == Find(Entries(nodes), id)
      ensures item != null ==> item in nodes
    {
      hide Sound, Linked;
      ghost var k := 0;
      FirstAt();
      item := first;
      while item != null && Id(item) != id
        invariant k <= |nodes| && item == At(nodes, k) && (item != null ==> item in live && item in nodes)
        invariant Find(Entries(nodes), id) == Find(Entries(nodes)[k..], id)
        decreases |nodes| - k
      {
        assert Entries(nodes)[k..][0] == EntryOf(item) && Entries(nodes)[k..][1..] == Entries(nodes)[k + 1..];
        Member(k);
        if k + 1 < |nodes| {
          Member(k + 1);
        }
        item := Next(item);
        k := k + 1;
      }
    }

    lemma FirstAt()
      requires Valid()
      ensures first == At(nodes, 0) && (first != null ==> first in live && first in nodes)
    {}

    /** Everything but the current pointer is in order, while the list is being emptied. */
    ghost predicate Emptying()
      reads this, nodes
    {
      Linked(first, nodes) && Sound(nodes, live, null, mallocs, frees, libraries, evicted)
    }

    /** Frees the first item. */
    method Pop(item: Node)
      requires Emptying() && item == first
      modifies this
      ensures Emptying() && nodes == old(nodes[1..]) && current == old(current)
      ensures frees == old(frees) + 1 && libraries + 1 == old(libraries)
      ensures mallocs == old(mallocs) && evicted == old(evicted)
    {
      HeadSound(nodes, live, mallocs, frees, libraries, evicted);
      TailLinked(first, nodes);
      libraries := libraries - 1;
      first := Next(item);
      Free(item);
      nodes := nodes[1..];
    }

    /** unload_input_helper: returns the number of locales removed. */
    method UnloadAll() returns (count: nat)
      requires Valid()
      modifies this
      ensures Valid() && Value() == Unload(old(Value())) && count == |old(Value()).entries| && nodes == []
    {
      SoundCurrent(nodes, live, current, mallocs, frees, libraries, evicted);
      hide Sound, Linked;
      count := 0;
      FirstAt();
      var item := first;
      while item != null
        invariant Emptying() && item == first && count + |nodes| == |old(nodes)|
        invariant (item == null <==> nodes == [])
        invariant frees == old(frees) + count && libraries + count == old(libraries)
        invariant mallocs == old(mallocs) && evicted == old(evicted)
        decreases |nodes|
      {
        Pop(item);
        item := first;
        EmptyIff();
        count := count + 1;
      }
      current := null;
    }

    lemma EmptyIff()
      requires Emptying()
      ensures first == null <==> nodes == []
    {}

    /** A whole run of calls on a new cache: the heap follows the specification, up to the
        call in which it crashes. */
    method Execute(ops: seq<Op>) returns (ok: bool)
      requires Valid() && nodes == [] && Value() == EMPTY
      modifies this
      ensures ok <==> Run(ops).Some?
      ensures ok ==> Valid() && Value() == Run(ops).value
    {
      hide Sound, Linked, Entries;
      ok := true;
      for i := 0 to |ops|
        invariant ok && Valid() && Run(ops[..i]) == Some(Value())
        invariant forall k :: 0 <= k < |nodes| ==> fresh(nodes[k])
      {
        assert ops[..i + 1][..i] == ops[..i];
        ghost var before := nodes;
        match ops[i] {
          case Load(os) =>
            var _, done := RefreshList(os);
            ok := done;
          case Choose(os, focus, own) =>
            ok := SelectLocale(os, focus, own);
          case Drop =>
            var _ := UnloadAll();
        }
        if !ok {
          RunStaysCrashed(ops, i + 1);
          return;
        }
        forall k | 0 <= k < |nodes| ensures fresh(nodes[k]) {
          assert nodes[k] in nodes;
          if nodes[k] in before {
            var j :| 0 <= j < |before| && before[j] == nodes[k];
          }
        }
      }
      assert ops[..|ops|] == ops;
    }
  }

  lemma {:induction false} RunStaysCrashed(ops: seq<Op>, k: nat)
    requires k <= |ops| && Run(ops[..k]) == None
    ensures Run(ops) == None
    decreases |ops|
  {
    if k == |ops| {
      assert ops[..k] == ops;
    } else {
      assert ops[..|ops| - 1][..k] == ops[..k];
      RunStaysCrashed(ops[..|ops| - 1], k);
    }
  }
}
