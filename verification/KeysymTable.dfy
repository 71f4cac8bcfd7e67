/** Keysym/Unicode conversion of the X11 input helper, over an arbitrary table of
    code pairs. The keysym space is that of Appendix A of the X Window System
    Protocol; the Latin-1 and the direct-UCS branches are compiled in. Codes are
    unsigned integers, and the bit operations are arithmetic (see BitwiseForm). */
module KeysymTable {
  import opened Options

  /** On machine words: tagging adds, and the tag test and the extraction read quotient
      and remainder by the tag. */
  lemma BitwiseForm(unicode: bv32, keysym: bv32)
    ensures unicode <= 0xFFFFFF ==> unicode | 0x01000000 == unicode + 0x01000000
    ensures ((keysym >> 24) << 24) + (keysym & 0x00FFFFFF) == keysym && keysym & 0x00FFFFFF < 0x01000000
    ensures keysym & 0xFF000000 == 0x01000000 <==> keysym >> 24 == 1
  {}

  datatype Pair = Pair(keysym: nat, unicode: nat)

  type Table = seq<Pair>

  /** The conditions the source states for its table: 16-bit columns, strictly
      sorted by keysym, no keysym inside the Latin-1 page. The Unicode column is
      in no particular order. */
  ghost predicate WellFormed(t: Table) {
    && StrictlySorted(Keysyms(t))
    && forall p <- t :: 0xFF < p.keysym <= 0xFFFF && p.unicode <= 0xFFFF
  }

  function Keysyms(t: Table): seq<nat> {
    seq(|t|, i requires 0 <= i < |t| => t[i].keysym)
  }

  function Unicodes(t: Table): seq<nat> {
    seq(|t|, i requires 0 <= i < |t| => t[i].unicode)
  }

  ghost predicate StrictlySorted(column: seq<nat>) {
    forall i, j :: 0 <= i < j < |column| ==> column[i] < column[j]
  }

  predicate IsLatin1(code: nat) {
    0x20 <= code <= 0x7E || 0xA0 <= code <= 0xFF
  }

  const UCS_TAG := 0x01000000

  /** A keysym whose third byte marks it as a directly encoded UCS character. */
  predicate IsDirectUcs(keysym: nat) {
    keysym / UCS_TAG % 0x100 == 1
  }

  function ToUInt16(x: nat): nat {
    x % 0x1_0000
  }

  /** Where a bisection of column[lo..hi] for x ends, if it meets x at all. */
  function Bisect(column: seq<nat>, x: nat, lo: nat, hi: nat): (r: Option<nat>)
    requires hi <= |column|
    ensures r.Some? ==> lo <= r.value < hi && column[r.value] == x
    decreases hi - lo
  {
    if lo >= hi then None
    else
      var mid := (lo + hi - 1) / 2;
      if column[mid] < x then Bisect(column, x, mid + 1, hi)
      else if column[mid] > x then Bisect(column, x, lo, mid)
      else Some(mid)
  }

  /** On a sorted column the bisection meets x whenever it is there. */
  lemma BisectFinds(column: seq<nat>, x: nat, lo: nat, hi: nat, k: nat)
    requires StrictlySorted(column) && lo <= k < hi <= |column| && column[k] == x
    ensures Bisect(column, x, lo, hi) == Some(k)
    decreases hi - lo
  {
    var mid := (lo + hi - 1) / 2;
    if column[mid] < x {
      assert mid < k;
      BisectFinds(column, x, mid + 1, hi, k);
    } else if column[mid] > x {
      assert k < mid;
      BisectFinds(column, x, lo, mid, k);
    } else {
      assert mid == k;
    }
  }

  /** The keysym of a Unicode value: Latin-1 itself, else what the bisection of the
      Unicode column meets, else the value tagged as a direct UCS keysym. */
  function KeysymOf(t: Table, unicode: nat): nat {
    if IsLatin1(unicode) then unicode
    else
      match Bisect(Unicodes(t), unicode, 0, |t|)
      case Some(i) => t[i].keysym
      case None => unicode + UCS_TAG
  }

  /** The plain reference: the characters of a keysym by a linear reading of the table. */
  function Lookup(t: Table, keysym: nat): Option<nat> {
    if t == [] then None
    else if t[0].keysym == keysym then Some(t[0].unicode)
    else Lookup(t[1..], keysym)
  }

  function CharsOf(t: Table, keysym: nat): seq<nat> {
    if IsLatin1(keysym) then [ToUInt16(keysym)]
    else if IsDirectUcs(keysym) then [ToUInt16(keysym % UCS_TAG)]
    else
      match Lookup(t, keysym)
      case Some(u) => [ToUInt16(u)]
      case None => []
  }

  lemma {:induction false} LookupFinds(t: Table, k: nat)
    requires k < |t| && forall i :: 0 <= i < k ==> t[i].keysym != t[k].keysym
    ensures Lookup(t, t[k].keysym) == Some(t[k].unicode)
  {
    if k > 0 {
      LookupFinds(t[1..], k - 1);
    }
  }

  lemma {:induction false} LookupMisses(t: Table, keysym: nat)
    requires forall i :: 0 <= i < |t| ==> t[i].keysym != keysym
    ensures Lookup(t, keysym) == None
  {
    if t != [] {
      LookupMisses(t[1..], keysym);
    }
  }

  /** The binary search refines the linear reading on every sorted table: it hits
      exactly when the keysym is present, with that pair's Unicode value. */
  lemma SearchRefinesLookup(t: Table, keysym: nat)
    requires StrictlySorted(Keysyms(t))
    ensures Lookup(t, keysym)
         == match Bisect(Keysyms(t), keysym, 0, |t|) case Some(i) => Some(t[i].unicode) case None => None
    ensures Lookup(t, keysym).Some? <==> exists p <- t :: p.keysym == keysym
  {
    var column := Keysyms(t);
    if k :| 0 <= k < |t| && t[k].keysym == keysym {
      assert column[k] == keysym;
      BisectFinds(column, keysym, 0, |t|, k);
      assert forall i :: 0 <= i < k ==> t[i].keysym == column[i] != column[k];
      LookupFinds(t, k);
      assert t[k] in t;
    } else {
      LookupMisses(t, keysym);
    }
  }

  /** unicode_to_keysym. */
  method UnicodeToKeysym(t: Table, unicode: nat) returns (keysym: nat)
    ensures keysym == KeysymOf(t, unicode)
  {
    if (unicode >= 0x0020 && unicode <= 0x007E) || (unicode >= 0x00A0 && unicode <= 0x00FF) {
      return unicode;
    }
    var hit := FindUnicode(t, unicode);
    if hit.Some? {
      return t[hit.value].keysym;
    }
    return unicode + UCS_TAG;
  }

  /** The search loop of unicode_to_keysym. */
  method FindUnicode(t: Table, unicode: nat) returns (hit: Option<nat>)
    ensures hit == Bisect(Unicodes(t), unicode, 0, |t|)
  {
    ghost var column := Unicodes(t);
    var min, max := 0, |t| - 1;
    while max >= min
      invariant 0 <= min <= max + 1 <= |t|
      invariant Bisect(column, unicode, 0, |t|) == Bisect(column, unicode, min, max + 1)
      decreases max + 1 - min
    {
      var mid := (min + max) / 2;
      if t[mid].unicode < unicode {
        min := mid + 1;
      } else if t[mid].unicode > unicode {
        max := mid - 1;
      } else {
        return Some(mid);
      }
    }
    return None;
  }

  /** The search loop of keysym_to_unicode. */
  method FindKeysym(t: Table, keysym: nat) returns (hit: Option<nat>)
    ensures hit == Bisect(Keysyms(t), keysym, 0, |t|)
  {
    ghost var column := Keysyms(t);
    var min, max := 0, |t| - 1;
    while max >= min
      invariant 0 <= min <= max + 1 <= |t|
      invariant Bisect(column, keysym, 0, |t|) == Bisect(column, keysym, min, max + 1)
      decreases max + 1 - min
    {
      var mid := (min + max) / 2;
      if t[mid].keysym < keysym {
        min := mid + 1;
      } else if t[mid].keysym > keysym {
        max := mid - 1;
      } else {
        return Some(mid);
      }
    }
    return None;
  }

  /** keysym_to_unicode: writes at most `size` units of the caller's buffer. */
  method KeysymToUnicode(t: Table, keysym: nat, buffer: array<nat>, size: nat) returns (count: nat)
    requires StrictlySorted(Keysyms(t)) && size <= buffer.Length
    modifies buffer
    ensures count == if size == 0 then 0 else |CharsOf(t, keysym)|
    ensures count == 1 ==> buffer.Length > 0 && buffer[0] == CharsOf(t, keysym)[0]
    ensures forall i :: count <= i < buffer.Length ==> buffer[i] == old(buffer[i])
  {
    count := 0;
    var unit: nat;
    if (keysym >= 0x0020 && keysym <= 0x007E) || (keysym >= 0x00A0 && keysym <= 0x00FF) {
      unit := ToUInt16(keysym);
    } else if IsDirectUcs(keysym) {
      unit := ToUInt16(keysym % UCS_TAG);
    } else {
      SearchRefinesLookup(t, keysym);
      var hit := FindKeysym(t, keysym);
      if hit == None {
        return;
      }
      unit := ToUInt16(t[hit.value].unicode);
    }
    if count < size {
      buffer[count] := unit;
      count := count + 1;
    }
  }

  /** A keysym is one of the three kinds only: Latin-1 itself, the keysym of a real
      pair of the table, or the tagged value. */
  lemma KeysymKinds(t: Table, unicode: nat)
    ensures var k := KeysymOf(t, unicode);
            || (IsLatin1(unicode) && k == unicode)
            || (exists p <- t :: p.keysym == k && p.unicode == unicode)
            || k == unicode + UCS_TAG
  {
    match Bisect(Unicodes(t), unicode, 0, |t|)
    case Some(i) => assert t[i] in t;
    case None =>
  }

  /** Exactly the printable characters of ASCII and Latin-1 stand for themselves, both ways;
      any other is converted to the keysym of a pair or tagged. */
  lemma Latin1Kept(t: Table, code: nat)
    ensures 0x20 <= code <= 0x7E || 0xA0 <= code <= 0xFF ==> KeysymOf(t, code) == code && CharsOf(t, code) == [code]
    ensures !(0x20 <= code <= 0x7E || 0xA0 <= code <= 0xFF) ==>
              || (exists p <- t :: p.unicode == code && KeysymOf(t, code) == p.keysym)
              || KeysymOf(t, code) == 0x0100_0000 + code
  {
    KeysymKinds(t, code);
  }

  /** The characters of any other 32-bit keysym: the low 16 bits from 0x01000000 to
      0x01FFFFFF, and else what the table lists. */
  lemma OtherKeysyms(t: Table, keysym: nat)
    requires keysym < 0x1_0000_0000 && !(0x20 <= keysym <= 0x7E || 0xA0 <= keysym <= 0xFF)
    ensures 0x0100_0000 <= keysym <= 0x01FF_FFFF ==> CharsOf(t, keysym) == [keysym % 0x1_0000]
    ensures !(0x0100_0000 <= keysym <= 0x01FF_FFFF) ==>
              CharsOf(t, keysym)
              == match Lookup(t, keysym) case Some(u) => [u % 0x1_0000] case None => []
  {}

  lemma TaggedKeysym(u: nat)
    requires u <= 0xFFFF
    ensures !IsLatin1(u + UCS_TAG)
    ensures IsDirectUcs(u + UCS_TAG)
    ensures ToUInt16((u + UCS_TAG) % UCS_TAG) == u
  {}

  /** The keysym of a pair of the table stands for that pair's character. */
  lemma TableHit(t: Table, i: nat)
    requires WellFormed(t) && i < |t|
    ensures CharsOf(t, t[i].keysym) == [t[i].unicode]
  {
    assert t[i] in t;
    var column := Keysyms(t);
    assert forall j :: 0 <= j < i ==> t[j].keysym == column[j] != column[i];
    LookupFinds(t, i);
  }

  /** Round trip: every 16-bit code survives the way to a keysym and back, although
      the Unicode column is unsorted and the first search may miss. */
  lemma RoundTrip(t: Table, u: nat)
    requires WellFormed(t) && u <= 0xFFFF
    ensures CharsOf(t, KeysymOf(t, u)) == [u]
  {
    if IsLatin1(u) {
      return;
    }
    match Bisect(Unicodes(t), u, 0, |t|)
    case None => TaggedKeysym(u);
    case Some(i) => TableHit(t, i);
  }

  /** On a table whose Unicode column is sorted too, every listed character is found. */
  lemma SortedUnicodeHits(t: Table, k: nat)
    requires k < |t| && StrictlySorted(Unicodes(t)) && !IsLatin1(t[k].unicode)
    ensures KeysymOf(t, t[k].unicode) == t[k].keysym
  {
    BisectFinds(Unicodes(t), t[k].unicode, 0, |t|, k);
  }

  lemma BisectStep(column: seq<nat>, lo: nat, hi: nat, k: nat)
    requires lo <= k < hi <= |column| && Bisect(column, column[k], lo, hi) == Some(k)
    ensures var mid := (lo + hi - 1) / 2;
            && (k < mid ==> column[k] < column[mid] && Bisect(column, column[k], lo, mid) == Some(k))
            && (mid < k ==> column[mid] < column[k] && Bisect(column, column[k], mid + 1, hi) == Some(k))
  {}

  /** A bisection that meets every element of a range at its own place means that the
      range is strictly sorted. */
  lemma {:induction false} BisectNeedsSorted(column: seq<nat>, lo: nat, hi: nat)
    requires hi <= |column|
    requires forall k :: lo <= k < hi ==> Bisect(column, column[k], lo, hi) == Some(k)
    ensures forall i, j :: lo <= i < j < hi ==> column[i] < column[j]
    decreases hi - lo
  {
    hide Bisect;
    if lo < hi {
      var mid := (lo + hi - 1) / 2;
      assert lo <= mid < hi;
      forall k | lo <= k < mid ensures Bisect(column, column[k], lo, mid) == Some(k) && column[k] < column[mid] {
        BisectStep(column, lo, hi, k);
      }
      forall k | mid < k < hi ensures Bisect(column, column[k], mid + 1, hi) == Some(k) && column[mid] < column[k] {
        BisectStep(column, lo, hi, k);
      }
      BisectNeedsSorted(column, lo, mid);
      BisectNeedsSorted(column, mid + 1, hi);
    }
  }

  /** The rows that a bisection of lo..hi on its way to row k compares before it. They
      depend on positions only, not on what the rows hold. */
  ghost function Probes(lo: nat, hi: nat, k: nat): set<nat>
    requires lo <= k < hi
    decreases hi - lo
  {
    var mid := (lo + hi - 1) / 2;
    if mid == k then {}
    else {mid} + if mid < k then Probes(mid + 1, hi, k) else Probes(lo, mid, k)
  }

  lemma ProbesWithin(lo: nat, hi: nat, k: nat)
    requires lo <= k < hi
    ensures forall m <- Probes(lo, hi, k) :: lo <= m < hi && m != k
    decreases hi - lo
  {}

  /** Every row compared on the way to row k is on the right side of it. */
  ghost predicate ProbesOrdered(column: seq<nat>, lo: nat, hi: nat, k: nat)
    requires lo <= k < hi <= |column|
  {
    forall m <- Probes(lo, hi, k) :: m < |column| && if m < k then column[m] < column[k] else column[k] < column[m]
  }

  /** A bisection for what row k holds ends at row k exactly if the rows on the way are ordered. */
  lemma {:induction false} BisectFindsIff(column: seq<nat>, lo: nat, hi: nat, k: nat)
    requires lo <= k < hi <= |column|
    ensures Bisect(column, column[k], lo, hi) == Some(k) <==> ProbesOrdered(column, lo, hi, k)
    decreases hi - lo
  {
    var mid := (lo + hi - 1) / 2;
    if mid < k {
      ProbesWithin(mid + 1, hi, k);
      BisectFindsIff(column, mid + 1, hi, k);
      assert mid in Probes(lo, hi, k);
      assert ProbesOrdered(column, lo, hi, k) <==>
             column[mid] < column[k] && ProbesOrdered(column, mid + 1, hi, k);
    } else if k < mid {
      ProbesWithin(lo, mid, k);
      BisectFindsIff(column, lo, mid, k);
      assert mid in Probes(lo, hi, k);
      assert ProbesOrdered(column, lo, hi, k) <==>
             column[k] < column[mid] && ProbesOrdered(column, lo, mid, k);
    }
  }

  /** A row of a well-formed table is what its character is converted to exactly if that is
      no Latin-1 character and the rows on the way to it are ordered. */
  lemma RowFoundIff(t: Table, k: nat)
    requires WellFormed(t) && k < |t|
    ensures KeysymOf(t, t[k].unicode) == t[k].keysym <==>
              !IsLatin1(t[k].unicode) && ProbesOrdered(Unicodes(t), 0, |t|, k)
  {
    hide Bisect, ProbesOrdered;
    BisectFindsIff(Unicodes(t), 0, |t|, k);
    assert t[k] in t;
    if !IsLatin1(t[k].unicode) && KeysymOf(t, t[k].unicode) == t[k].keysym {
      FoundAtItsPlace(t, k);
    }
  }

  /** A character is converted to a tagged keysym exactly if it is not Latin-1 and no row
      that lists it has ordered rows on the way to it. */
  lemma TaggedIff(t: Table, unicode: nat)
    requires WellFormed(t)
    ensures KeysymOf(t, unicode) == unicode + UCS_TAG <==>
              !IsLatin1(unicode)
              && forall k :: 0 <= k < |t| && t[k].unicode == unicode ==> !ProbesOrdered(Unicodes(t), 0, |t|, k)
  {
    hide Bisect, ProbesOrdered;
    var column := Unicodes(t);
    match Bisect(column, unicode, 0, |t|)
    case Some(i) =>
      MeetsItself(column, unicode);
      BisectFindsIff(column, 0, |t|, i);
      assert t[i] in t && t[i].unicode == unicode;
    case None =>
      forall k | 0 <= k < |t| && t[k].unicode == unicode ensures !ProbesOrdered(column, 0, |t|, k) {
        BisectFindsIff(column, 0, |t|, k);
      }
  }

  lemma MeetsItself(column: seq<nat>, x: nat)
    ensures var r := Bisect(column, x, 0, |column|); r.Some? ==> r.value < |column| && column[r.value] == x
  {}

  /** Every row is found exactly if the Unicode column is sorted too and lists no Latin-1 character. */
  lemma AllListedFoundIffSorted(t: Table)
    requires WellFormed(t)
    ensures (forall k :: 0 <= k < |t| ==> KeysymOf(t, t[k].unicode) == t[k].keysym) <==>
              StrictlySorted(Unicodes(t)) && forall k :: 0 <= k < |t| ==> !IsLatin1(t[k].unicode)
  {
    var column := Unicodes(t);
    if StrictlySorted(column) && forall k :: 0 <= k < |t| ==> !IsLatin1(t[k].unicode) {
      forall k | 0 <= k < |t| ensures KeysymOf(t, t[k].unicode) == t[k].keysym {
        SortedUnicodeHits(t, k);
      }
    }
    if forall k :: 0 <= k < |t| ==> KeysymOf(t, t[k].unicode) == t[k].keysym {
      forall k | 0 <= k < |t| ensures !IsLatin1(t[k].unicode) && Bisect(column, column[k], 0, |t|) == Some(k) {
        RowFoundIff(t, k);
        FoundAtItsPlace(t, k);
      }
      BisectNeedsSorted(column, 0, |t|);
    }
  }

  lemma FoundAtItsPlace(t: Table, k: nat)
    requires WellFormed(t) && k < |t| && !IsLatin1(t[k].unicode)
    requires KeysymOf(t, t[k].unicode) == t[k].keysym
    ensures Bisect(Unicodes(t), t[k].unicode, 0, |t|) == Some(k)
  {
    assert t[k] in t;
    match Bisect(Unicodes(t), t[k].unicode, 0, |t|)
    case None =>
    case Some(i) => assert Keysyms(t)[i] == Keysyms(t)[k];
  }

  /** The rows of the source's table that its search for U+0141 compares, and row 2, which
      lists that character. */
  ghost predicate HasSourceRows(t: Table) {
    && |t| == 758 && t[2] == Pair(0x01A3, 0x0141)
    && t[378] == Pair(0x07EE, 0x03BE) && t[188] == Pair(0x05C8, 0x0628) && t[93] == Pair(0x03BF, 0x014B)
    && t[46] == Pair(0x01EC, 0x011B) && t[69] == Pair(0x02D5, 0x0120) && t[81] == Pair(0x03A5, 0x0128)
    && t[87] == Pair(0x03B5, 0x0129) && t[90] == Pair(0x03BB, 0x0123) && t[91] == Pair(0x03BC, 0x0167)
  }

  /** The source's own table misses a character it lists: U+0141 becomes a tagged keysym. */
  lemma ListedCharacterMissed(t: Table)
    requires WellFormed(t) && HasSourceRows(t)
    ensures KeysymOf(t, 0x0141) == 0x01000141 && CharsOf(t, 0x01A3) == [0x0141]
  {
    var c := Unicodes(t);
    assert Bisect(c, 0x0141, 0, 758) == Bisect(c, 0x0141, 0, 93) == Bisect(c, 0x0141, 47, 93);
    assert Bisect(c, 0x0141, 47, 93) == Bisect(c, 0x0141, 82, 93) == Bisect(c, 0x0141, 91, 93) == None;
    TableHit(t, 2);
  }

  /** A direct UCS keysym yields its character exactly when that fits 16 bits: the
      24-bit value is stored in one 16-bit unit. */
  lemma DirectUcs(t: Table, c: nat)
    requires c <= 0xFFFFFF
    ensures |CharsOf(t, c + UCS_TAG)| == 1
    ensures CharsOf(t, c + UCS_TAG)[0] == c <==> c <= 0xFFFF
  {
    assert IsDirectUcs(c + UCS_TAG);
    assert (c + UCS_TAG) % UCS_TAG == c;
  }
}
