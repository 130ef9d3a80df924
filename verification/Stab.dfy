/**
  stab_binsearch of kern/kdebug.c: a binary search in a table of which only the entries of one type
  are sorted, and whose key grows by one after each exact hit.
 */
module Stab {
  import opened Mmu

  datatype Entry = Entry(nType: nat, nValue: Addr)

  /** A call: the table, the range of indices to search, the wanted type and the address. */
  datatype Query = Query(stabs: seq<Entry>, lo: int, hi: int, kind: int, addr: Addr)
  {
    predicate InTable() {
      0 <= lo && hi < |stabs|
    }

    predicate Wanted(j: int) {
      0 <= lo <= j <= hi < |stabs| && stabs[j].nType == kind
    }

    /** The wanted entries are in nondecreasing order, and the largest address is not one of them. */
    ghost predicate Sorted() {
      && (forall i, j :: Wanted(i) && Wanted(j) && i <= j ==> stabs[i].nValue <= stabs[j].nValue)
      && (forall j :: Wanted(j) ==> stabs[j].nValue < 0xFFFF_FFFF)
    }

    ghost predicate SomeBelow() {
      exists j :: Wanted(j) && stabs[j].nValue <= addr
    }

    ghost predicate AnyWanted() {
      exists j :: Wanted(j)
    }

    ghost predicate First(f: int) {
      Wanted(f) && forall j :: j < f ==> !Wanted(j)
    }

    /** left is the last wanted entry at or below addr, and right is just before the next wanted one. */
    ghost predicate Brackets(left: int, right: int) {
      && Wanted(left) && stabs[left].nValue <= addr
      && left <= right <= hi
      && (forall j :: left < j <= right ==> !Wanted(j))
      && (right == hi || (Wanted(right + 1) && stabs[right + 1].nValue > addr))
    }

    ghost predicate Has(v: int) {
      exists j :: Wanted(j) && stabs[j].nValue == v
    }

    /**
      left is a wanted entry for a later address that the wanted entries reach from addr without a gap,
      and right is just before the next wanted one.
     */
    ghost predicate RunsOn(left: int, right: int) {
      && Wanted(left) && stabs[left].nValue > addr && (forall v :: addr <= v <= stabs[left].nValue ==> Has(v))
      && left <= right <= hi
      && (forall j :: left < j <= right ==> !Wanted(j))
      && (right == hi || Wanted(right + 1))
    }

    /** A wanted entry for addr + 1 is still in the window when a search with a fixed key first hits addr. */
    ghost predicate Overruns()
      requires InTable()
    {
      match FirstHit(stabs, kind, lo, hi, addr)
      case None => false
      case Some((m, r)) => exists j :: m <= j <= r && Wanted(j) && stabs[j].nValue == addr + 1
    }
  }

  /** The last entry of type kind in [l, m], or l - 1. */
  function LastWanted(stabs: seq<Entry>, kind: int, l: int, m: int): (k: int)
    requires 0 <= l <= m + 1 <= |stabs|
    ensures l - 1 <= k <= m
    ensures k >= l ==> stabs[k].nType == kind
    ensures forall j :: k < j <= m ==> stabs[j].nType != kind
    decreases m + 1 - l
  {
    if m < l then m else if stabs[m].nType == kind then m else LastWanted(stabs, kind, l, m - 1)
  }

  /** `addr++` on a 32-bit address. */
  function Next(key: Addr): Addr {
    (key + 1) % 0x1_0000_0000
  }

  function Mid(l: int, r: int): (m: int)
    requires 0 <= l <= r
    ensures l <= m <= r
  {
    (l + r) / 2
  }

  /** Bisection with a fixed key: where it first hits addr, and the right end of its window then. */
  function FirstHit(stabs: seq<Entry>, kind: int, l: int, r: int, addr: Addr): (hit: Option<(int, int)>)
    requires 0 <= l && r < |stabs|
    ensures hit.Some? ==>
      l <= hit.value.0 <= hit.value.1 <= r && stabs[hit.value.0].nType == kind && stabs[hit.value.0].nValue == addr
    decreases r - l + 1
  {
    if l > r then None
    else
      var mid := Mid(l, r);
      var m := LastWanted(stabs, kind, l, mid);
      if m < l || stabs[m].nValue < addr then FirstHit(stabs, kind, mid + 1, r, addr)
      else if stabs[m].nValue > addr then FirstHit(stabs, kind, l, m - 1, addr)
      else Some((m, r))
  }

  /** An answer that has run on is wrong. */
  lemma RunsOnIsWrong(q: Query, left: int, right: int)
    ensures q.RunsOn(left, right) ==> !q.Brackets(left, right)
  {
  }

  /** There is one right answer. */
  lemma BracketsUnique(q: Query, left: int, right: int, left': int, right': int)
    requires q.Sorted() && q.Brackets(left, right) && q.Brackets(left', right')
    ensures left == left' && right == right'
  {
    assert right < q.hi ==> q.Wanted(right + 1);
    assert right' < q.hi ==> q.Wanted(right' + 1);
  }

  /** Two functions one byte apart: asked for the first, the search goes on to the second. */
  lemma OverrunExample()
    ensures var q := Query([Entry(36, 5), Entry(36, 6)], 0, 1, 36, 5); q.Sorted() && q.Brackets(0, 0) && q.Overruns()
  {
    var q := Query([Entry(36, 5), Entry(36, 6)], 0, 1, 36, 5);
    assert LastWanted(q.stabs, q.kind, 0, Mid(0, 1)) == 0;
    assert FirstHit(q.stabs, q.kind, 0, 1, 5) == Some((0, 1));
    assert q.Wanted(1);
  }

  // ---- the search in progress ---------------------------------------------------------------

  /** left and right are *region_left and *region_right; found says that left has been set. */
  datatype Progress = Progress(l: int, r: int, left: int, right: int, key: Addr, found: bool)

  /** The wanted entries for addr + 1 in [m, r0] are all still in the window. */
  ghost predicate NextInside(q: Query, s: Progress, m: int, r0: int) {
    && m <= s.l && s.r <= r0
    && forall j :: m <= j <= r0 && q.Wanted(j) && q.stabs[j].nValue == q.addr + 1 ==> s.l <= j <= s.r
  }

  /** One of them has been hit. */
  ghost predicate NextHit(q: Query, s: Progress, m: int, r0: int) {
    exists j :: m <= j <= r0 && j <= s.left && q.Wanted(j) && q.stabs[j].nValue == q.addr + 1
  }

  /** What the key says about the past: no hit yet, one hit, or an overrun. */
  ghost predicate KeyTells(q: Query, s: Progress)
    requires q.InTable() && q.lo <= s.l && s.r <= q.hi
  {
    var hit := FirstHit(q.stabs, q.kind, q.lo, q.hi, q.addr);
    if s.key == q.addr then hit == FirstHit(q.stabs, q.kind, s.l, s.r, q.addr)
    else if hit.None? then false
    else if s.key == q.addr + 1 then NextInside(q, s, hit.value.0, hit.value.1)
    else NextHit(q, s, hit.value.0, hit.value.1)
  }

  /** Left of the window everything is below the key, right of it everything is above addr. */
  ghost predicate Around(q: Query, s: Progress) {
    && q.InTable() && q.lo <= s.l && s.r <= q.hi
    && s.right == s.r && (s.r == q.hi || q.Wanted(s.r + 1))
    && (forall j :: j < s.l && q.Wanted(j) ==> s.found && j <= s.left)
    && (forall j :: s.r < j && q.Wanted(j) ==> q.stabs[j].nValue > q.addr)
    && s.key >= q.addr
    && (if s.found then q.Wanted(s.left) && s.left <= s.l && s.left <= s.r && q.stabs[s.left].nValue < s.key
        else s.left == q.lo && s.key == q.addr)
  }

  /** The key has gone past addresses of wanted entries only. */
  ghost predicate Climbed(q: Query, s: Progress) {
    forall v :: q.addr <= v < s.key ==> q.Has(v)
  }

  ghost predicate Searching(q: Query, s: Progress) {
    Around(q, s) && KeyTells(q, s) && Climbed(q, s)
  }

  lemma StartSearching(q: Query)
    requires q.InTable()
    ensures Searching(q, Progress(q.lo, q.hi, q.lo, q.hi, q.addr, false))
  {
  }

  /** The last wanted entry in the lower half of the window. */
  function Probe(q: Query, s: Progress): int
    requires q.InTable() && q.lo <= s.l <= s.r <= q.hi
  {
    LastWanted(q.stabs, q.kind, s.l, Mid(s.l, s.r))
  }

  /** One turn of the loop: skip the lower half, or move left, right or the key. */
  function Turn(q: Query, s: Progress): Progress
    requires q.InTable() && q.lo <= s.l <= s.r <= q.hi
  {
    var mid := Mid(s.l, s.r);
    var m := Probe(q, s);
    if m < s.l then s.(l := mid + 1)
    else if q.stabs[m].nValue < s.key then s.(left := m, l := mid + 1, found := true)
    else if q.stabs[m].nValue > s.key then s.(right := m - 1, r := m - 1)
    else s.(left := m, l := m, key := Next(s.key), found := true)
  }

  lemma TurnAround(q: Query, s: Progress)
    requires q.Sorted() && Around(q, s) && s.l <= s.r
    ensures Around(q, Turn(q, s)) && Turn(q, s).key >= s.key
  {
    assert forall j :: Probe(q, s) < j <= Mid(s.l, s.r) ==> !q.Wanted(j);
    assert s.l <= Probe(q, s) ==> q.Wanted(Probe(q, s));
    hide LastWanted;
    hide Probe;
  }

  lemma FirstHitTurn(q: Query, s: Progress)
    requires q.InTable() && q.lo <= s.l <= s.r <= q.hi && s.key == q.addr
    ensures var s' := Turn(q, s);
      FirstHit(q.stabs, q.kind, s.l, s.r, q.addr) ==
      if s'.key == s.key then FirstHit(q.stabs, q.kind, s'.l, s'.r, q.addr) else Some((Probe(q, s), s.r))
  {
    hide LastWanted;
    hide Mid;
  }

  lemma TurnBeforeHit(q: Query, s: Progress)
    requires q.Sorted() && Around(q, s) && KeyTells(q, s) && s.l <= s.r && s.key == q.addr
    requires Around(q, Turn(q, s))
    ensures KeyTells(q, Turn(q, s))
  {
    hide FirstHit;
    hide LastWanted;
    FirstHitTurn(q, s);
  }

  lemma TurnAfterHit(q: Query, s: Progress)
    requires q.Sorted() && Around(q, s) && KeyTells(q, s) && s.l <= s.r && s.key > q.addr
    requires Around(q, Turn(q, s))
    ensures KeyTells(q, Turn(q, s))
  {
    hide FirstHit;
    var (m, r0) := FirstHit(q.stabs, q.kind, q.lo, q.hi, q.addr).value;
    var s' := Turn(q, s);
    assert s.l <= Probe(q, s) ==> q.Wanted(Probe(q, s));
    hide LastWanted;
    if s.key > q.addr + 1 {
      assert NextHit(q, s', m, r0);
    } else if s'.key == s.key {
      assert NextInside(q, s', m, r0);
    } else {
      assert NextHit(q, s', m, r0);
    }
  }

  lemma TurnClimbed(q: Query, s: Progress)
    requires q.Sorted() && Around(q, s) && Climbed(q, s) && s.l <= s.r
    ensures Climbed(q, Turn(q, s))
  {
    assert s.l <= Probe(q, s) ==> q.Wanted(Probe(q, s));
    hide LastWanted;
    hide Probe;
  }

  lemma TurnSearching(q: Query, s: Progress)
    requires q.Sorted() && Searching(q, s) && s.l <= s.r
    ensures Searching(q, Turn(q, s))
  {
    TurnAround(q, s);
    TurnClimbed(q, s);
    if s.key == q.addr {
      TurnBeforeHit(q, s);
    } else {
      TurnAfterHit(q, s);
    }
  }

  lemma NothingWanted(q: Query, s: Progress)
    requires Searching(q, s) && s.l > s.r == q.hi && !s.found
    ensures !q.SomeBelow() && !q.AnyWanted() && forall f :: !q.First(f)
  {
  }

  /** The scan down from right ends at left when that is wanted. */
  lemma Done(q: Query, s: Progress, left: int)
    requires q.Sorted() && Searching(q, s) && s.l > s.r
    requires left <= s.right < |q.stabs| && 0 <= s.left
    requires left == s.left || (left > s.left && q.stabs[left].nType == q.kind) || left == s.right < s.left
    requires forall j :: 0 <= j && left < j <= s.right ==> q.stabs[j].nType != q.kind
    ensures q.SomeBelow() ==> if q.Overruns() then q.RunsOn(left, s.right) else q.Brackets(left, s.right)
    ensures !q.SomeBelow() ==> forall f :: q.First(f) ==>
      s.right == f - 1 && left == if s.right < q.lo then s.right else q.lo
  {
    assert forall j :: left < j <= s.right ==> !q.Wanted(j);
    assert left >= q.lo ==> (q.Wanted(left) <==> q.stabs[left].nType == q.kind);
  }

  /** What is left to search, doubled, plus one while entry l is an exact hit that will only move the key. */
  ghost function Measure(q: Query, s: Progress): nat {
    if s.l > s.r then 0 else 2 * (s.r - s.l + 1) + if q.Wanted(s.l) && q.stabs[s.l].nValue == s.key then 1 else 0
  }

  /** On any table, sorted or not, a turn stays in range and makes progress. */
  lemma TurnProgress(q: Query, s: Progress)
    requires q.InTable() && q.lo <= s.l <= s.r <= s.right <= q.hi && q.lo <= s.left
    ensures var s' := Turn(q, s);
      && Measure(q, s') < Measure(q, s) && q.lo <= s'.l && s'.r <= s'.right <= q.hi && q.lo <= s'.left
      && (Probe(q, s) >= s.l ==> q.AnyWanted())
  {
    assert s.l <= Probe(q, s) ==> q.Wanted(Probe(q, s));
    hide LastWanted;
    hide Mid;
  }

  /** The inner loop: the last entry of the right type in [l, trueM], or l - 1. */
  method ScanDown(stabs: seq<Entry>, l: int, trueM: int, kind: int) returns (m: int)
    requires 0 <= l <= trueM + 1 <= |stabs|
    ensures m == LastWanted(stabs, kind, l, trueM)
  {
    m := trueM;
    while m >= l && stabs[m].nType != kind
      invariant l - 1 <= m <= trueM
      invariant LastWanted(stabs, kind, l, trueM) == LastWanted(stabs, kind, l, m)
    {
      m := m - 1;
    }
  }

  /** The last loop: from right down to left or to an entry of the right type. */
  method Rightmost(stabs: seq<Entry>, left: int, right: int, kind: int) returns (l: int)
    requires 0 <= left && right < |stabs|
    ensures l <= right && (l == left || (l > left && stabs[l].nType == kind) || (l == right < left))
    ensures forall j :: 0 <= j && l < j <= right ==> stabs[j].nType != kind
  {
    l := right;
    while l > left && stabs[l].nType != kind
      invariant l <= right && (l >= left || l == right)
      invariant forall j :: 0 <= j && l < j <= right ==> stabs[j].nType != kind
    {
      l := l - 1;
    }
  }

  /** Before a wanted entry has been found. */
  ghost predicate NoneBefore(q: Query, l: int) {
    forall j :: j < l ==> !q.Wanted(j)
  }

  lemma NoneYet(q: Query)
    ensures NoneBefore(q, q.lo)
  {
  }

  lemma SkipNone(q: Query, l: int, m: int)
    requires 0 <= l <= m + 1 <= |q.stabs|
    ensures NoneBefore(q, l) && LastWanted(q.stabs, q.kind, l, m) < l ==> NoneBefore(q, m + 1)
  {
  }

  lemma NoneAtAll(q: Query, l: int)
    ensures NoneBefore(q, l) && l > q.hi ==> !q.AnyWanted()
  {
  }

  /** The main loop. */
  method Bisect(stabs: seq<Entry>, regionLeft: int, regionRight: int, kind: int, addr: Addr)
    returns (left: int, right: int, anyMatches: bool, ghost s: Progress)
    requires 0 <= regionLeft && regionRight < |stabs| <= 0x4000_0000
    ensures var q := Query(stabs, regionLeft, regionRight, kind, addr);
      && (q.Sorted() ==> Searching(q, s) && s.l > s.r)
      && s.left == left && s.right == right && regionLeft <= left && right <= regionRight
      && (if anyMatches then q.AnyWanted() else !q.AnyWanted() && left == regionLeft && s.r == regionRight && !s.found)
  {
    hide Searching;
    hide Around;
    hide KeyTells;
    hide LastWanted;
    hide Mid;
    hide Next;
    hide Measure;
    hide NoneBefore;
    hide Query.AnyWanted;
    hide Query.Wanted;
    hide Query.Sorted;
    left, right, anyMatches := regionLeft, regionRight, false;
    var l, r := left, right;
    var key: Addr := addr;
    ghost var q := Query(stabs, regionLeft, regionRight, kind, addr);
    ghost var found := false;
    s := Progress(l, r, left, right, key, found);
    StartSearching(q);
    NoneYet(q);
    while l <= r
      invariant q == Query(stabs, regionLeft, regionRight, kind, addr) && s == Progress(l, r, left, right, key, found)
      invariant regionLeft <= l && r <= right <= regionRight && regionLeft <= left
      invariant if anyMatches then q.AnyWanted()
        else NoneBefore(q, l) && left == regionLeft && r == regionRight && !found
      invariant q.Sorted() ==> Searching(q, s)
      decreases Measure(q, s)
    {
      TurnProgress(q, s);
      if q.Sorted() { TurnSearching(q, s); }
      s := Turn(q, s);
      var trueM := Mid(l, r);
      var m := ScanDown(stabs, l, trueM, kind);
      if m < l {
        SkipNone(q, l, trueM);
        l := trueM + 1;
        continue;
      }
      anyMatches := true;
      if stabs[m].nValue < key {
        left := m;
        l := trueM + 1;
        found := true;
      } else if stabs[m].nValue > key {
        right := m - 1;
        r := m - 1;
      } else {
        left := m;
        l := m;
        found := true;
        key := Next(key);
      }
    }
    NoneAtAll(q, l);
  }

  /**
    It terminates on every table, with left > right exactly when there is no wanted entry; then left stays.
    On sorted entries it answers correctly unless it overruns, and then it runs on to a later address.  With
    no wanted entry at or below addr right is just before the first, and still left <= right if there is one.
   */
  method StabBinsearch(stabs: seq<Entry>, regionLeft: int, regionRight: int, kind: int, addr: Addr)
    returns (left: int, right: int)
    requires 0 <= regionLeft && regionRight < |stabs| <= 0x4000_0000
    ensures var q := Query(stabs, regionLeft, regionRight, kind, addr);
      && (q.Sorted() && q.SomeBelow() ==> if q.Overruns() then q.RunsOn(left, right) else q.Brackets(left, right))
      && (q.Sorted() && q.SomeBelow() ==> (q.Brackets(left, right) <==> !q.Overruns()))
      && (q.Sorted() && !q.SomeBelow() ==> forall f :: q.First(f) ==>
            right == f - 1 && left == if right < regionLeft then right else regionLeft)
      && (left > right <==> !q.AnyWanted())
      && (!q.AnyWanted() ==> left == regionLeft && right == left - 1)
  {
    ghost var q := Query(stabs, regionLeft, regionRight, kind, addr);
    var anyMatches;
    ghost var s;
    left, right, anyMatches, s := Bisect(stabs, regionLeft, regionRight, kind, addr);
    hide *;
    if !anyMatches {
      if q.Sorted() { NothingWanted(q, s); }
      right := left - 1;
    } else {
      left := Rightmost(stabs, left, right, kind);
      if q.Sorted() { Done(q, s, left); }
      RunsOnIsWrong(q, left, right);
    }
  }
}
