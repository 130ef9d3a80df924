/**
  The re-threading at the head of check_page_free_list in kern/pmap.c: pages that the boot page
  tables map are moved to the front of the free list, in place, by appending each node to one of two
  lists through a pointer to the last link written.
 */
module FreeListSplit {
  import opened Mmu
  import opened VmInvariant
  import opened FreeChain

  /** `PDX(page2pa(pp)) >= pdx_limit`, with only_low_memory's limit of 1. */
  predicate High(p: nat) {
    p * PGSIZE / 0x40_0000 >= 1
  }

  /** The nodes of xs on one side, in order. */
  ghost function Side(xs: seq<nat>, high: bool): (ys: seq<nat>)
    ensures forall p :: p in ys <==> p in xs && High(p) == high
  {
    if xs == [] then []
    else
      var init, last := xs[..|xs| - 1], xs[|xs| - 1];
      assert xs == init + [last];
      if High(last) == high then Side(init, high) + [last] else Side(init, high)
  }

  ghost function Partition(xs: seq<nat>): seq<nat> {
    Side(xs, false) + Side(xs, true)
  }

  // ---- what a stable partition is -----------------------------------------------------------

  ghost predicate Before(xs: seq<nat>, a: nat, b: nat) {
    exists i, j :: 0 <= i < j < |xs| && xs[i] == a && xs[j] == b
  }

  lemma BeforeLast(xs: seq<nat>, c: nat, a: nat, b: nat)
    ensures Before(xs + [c], a, b) <==> Before(xs, a, b) || (a in xs && b == c)
  {
    var ys := xs + [c];
    if Before(ys, a, b) {
      var i, j :| 0 <= i < j < |ys| && ys[i] == a && ys[j] == b;
      assert xs[i] == a;
      if j < |xs| {
        assert xs[j] == b;
      }
    }
    if Before(xs, a, b) {
      var i, j :| 0 <= i < j < |xs| && xs[i] == a && xs[j] == b;
      assert ys[i] == a && ys[j] == b;
    }
    if a in xs && b == c {
      var i :| 0 <= i < |xs| && xs[i] == a;
      assert ys[i] == a && ys[|xs|] == b;
    }
  }

  /** Within a side, nodes stay in the order they had. */
  lemma {:induction false} SideOrder(xs: seq<nat>, high: bool, a: nat, b: nat)
    ensures Before(Side(xs, high), a, b) <==> Before(xs, a, b) && High(a) == high && High(b) == high
  {
    if xs != [] {
      var init, last := xs[..|xs| - 1], xs[|xs| - 1];
      assert xs == init + [last];
      SideOrder(init, high, a, b);
      BeforeLast(init, last, a, b);
      BeforeLast(Side(init, high), last, a, b);
    }
  }

  lemma {:induction false} SideNodes(xs: seq<nat>)
    ensures multiset(Partition(xs)) == multiset(xs)
  {
    if xs != [] {
      var init, last := xs[..|xs| - 1], xs[|xs| - 1];
      assert xs == init + [last];
      SideNodes(init);
    }
  }

  lemma BeforeConcat(xs: seq<nat>, ys: seq<nat>, a: nat, b: nat)
    ensures Before(xs + ys, a, b) <==> Before(xs, a, b) || Before(ys, a, b) || (a in xs && b in ys)
    decreases |ys|
  {
    if ys == [] {
      assert xs + ys == xs;
    } else {
      var init, last := ys[..|ys| - 1], ys[|ys| - 1];
      assert ys == init + [last] && xs + ys == (xs + init) + [last];
      BeforeConcat(xs, init, a, b);
      BeforeLast(xs + init, last, a, b);
      BeforeLast(init, last, a, b);
    }
  }

  /** The same nodes; every one below 4 MB, page 1024, before every other; order kept inside each half. */
  lemma PartitionIsStable(xs: seq<nat>, a: nat, b: nat)
    requires a in xs && b in xs
    ensures multiset(Partition(xs)) == multiset(xs)
    ensures Before(Partition(xs), a, b) <==> if (a < 1024) == (b < 1024) then Before(xs, a, b) else a < 1024
  {
    SideNodes(xs);
    SideOrder(xs, false, a, b);
    SideOrder(xs, true, a, b);
    BeforeConcat(Side(xs, false), Side(xs, true), a, b);
  }

  // ---- the loop -----------------------------------------------------------------------------

  /** The list through the links up to its last node, whose own link is yet to be written. */
  ghost predicate Open(pages: seq<PageInfo>, first: Option<nat>, last: Option<nat>, xs: seq<nat>) {
    && (if xs == [] then last == None else first == Some(xs[0]) && last == Some(xs[|xs| - 1]))
    && (forall k :: 0 <= k < |xs| ==> xs[k] < |pages|)
    && (forall k :: 0 <= k < |xs| - 1 ==> pages[xs[k]].link == Some(xs[k + 1]))
  }

  function Nth(xs: seq<nat>, k: nat): Option<nat> {
    if k < |xs| then Some(xs[k]) else None
  }

  /** Nodes linked one to the next, the last one to NULL, are a list. */
  lemma {:induction false} ChainOfLinks(pages: seq<PageInfo>, first: Option<nat>, xs: seq<nat>)
    requires first == Nth(xs, 0)
    requires forall k :: 0 <= k < |xs| ==> xs[k] < |pages| && pages[xs[k]].link == Nth(xs, k + 1)
    ensures Chain(pages, first, xs)
    decreases |xs|
  {
    if xs != [] {
      forall k | 0 <= k < |xs[1..]| ensures xs[1..][k] < |pages| && pages[xs[1..][k]].link == Nth(xs[1..], k + 1) {
        assert xs[1..][k] == xs[k + 1];
      }
      assert pages[xs[0]].link == Nth(xs[1..], 0);
      ChainOfLinks(pages, pages[xs[0]].link, xs[1..]);
    }
  }

  /**
    The effect of `*tp = v`, where tp points to a local variable, or to the link of the last node appended
    through it.
   */
  ghost predicate Assigned(pages: seq<PageInfo>, pages': seq<PageInfo>, local: Option<nat>, local': Option<nat>,
                           tp: Option<nat>, v: Option<nat>) {
    match tp
    case None => local' == v && pages' == pages
    case Some(p) => p < |pages| && local' == local && pages' == pages[p := pages[p].(link := v)]
  }

  method Assign(pages: array<PageInfo>, local: Option<nat>, tp: Option<nat>, v: Option<nat>)
    returns (local': Option<nat>)
    requires tp.Some? ==> tp.value < pages.Length
    modifies pages
    ensures Assigned(old(pages[..]), pages[..], local, local', tp, v)
  {
    local' := local;
    match tp
    case None => local' := v;
    case Some(p) => pages[p] := pages[p].(link := v);
  }

  lemma AppendOpen(pages: seq<PageInfo>, pages': seq<PageInfo>, first: Option<nat>, first': Option<nat>,
                   last: Option<nat>, xs: seq<nat>, p: nat)
    requires Open(pages, first, last, xs) && NoDup(xs + [p]) && p < |pages|
    requires Assigned(pages, pages', first, first', last, Some(p))
    ensures Open(pages', first', Some(p), xs + [p])
  {
    assert (xs + [p])[|xs|] == p;
    if xs != [] {
      assert forall k :: 0 <= k < |xs| ==> (xs + [p])[k] == xs[k];
    }
  }

  /** Appending to one list leaves the other. */
  lemma AppendOne(pages: seq<PageInfo>, pages': seq<PageInfo>, first: Option<nat>, first': Option<nat>,
                  last: Option<nat>, xs: seq<nat>, other: Option<nat>, otherLast: Option<nat>, ys: seq<nat>, p: nat)
    requires Open(pages, first, last, xs) && Open(pages, other, otherLast, ys) && NoDup(xs + [p]) && p < |pages|
    requires forall q :: q in xs ==> q !in ys
    requires Assigned(pages, pages', first, first', last, Some(p))
    ensures Open(pages', first', Some(p), xs + [p]) && Open(pages', other, otherLast, ys)
  {
    AppendOpen(pages, pages', first, first', last, xs, p);
    assert last.Some? ==> last.value in xs;
    OpenFrame(pages, pages', other, otherLast, ys);
  }

  lemma OpenFrame(pages: seq<PageInfo>, pages': seq<PageInfo>, first: Option<nat>, last: Option<nat>, xs: seq<nat>)
    requires Open(pages, first, last, xs) && |pages'| == |pages|
    requires forall p :: p in xs && p < |pages| ==> pages'[p] == pages[p]
    ensures Open(pages', first, last, xs)
  {
  }

  lemma {:induction false} SideNoDup(xs: seq<nat>, high: bool)
    requires NoDup(xs)
    ensures NoDup(Side(xs, high))
  {
    if xs != [] {
      SideNoDup(xs[..|xs| - 1], high);
    }
  }

  lemma SidesNoDup(list: seq<nat>)
    requires NoDup(list)
    ensures NoDup(Partition(list))
  {
    SideNoDup(list, false);
    SideNoDup(list, true);
    var low, high := Side(list, false), Side(list, true);
    forall i, j | 0 <= i < |low| && 0 <= j < |high| ensures low[i] != high[j] {
      assert low[i] in low && high[j] in high;
    }
  }

  lemma NextSide(list: seq<nat>, k: nat, high: bool)
    requires NoDup(list) && k < |list|
    ensures Side(list[..k + 1], high) ==
      if High(list[k]) == high then Side(list[..k], high) + [list[k]] else Side(list[..k], high)
    ensures NoDup(Side(list[..k], high) + [list[k]]) && forall p :: p in Side(list[..k], high) ==> p != list[k]
  {
    assert list[..k + 1][..k] == list[..k];
    assert NoDup(list[..k]);
    SideNoDup(list[..k], high);
    forall i | 0 <= i < k ensures list[i] != list[k] {
    }
  }

  /** pp1 and pp2, and what tp[0] and tp[1] point to: None for pp1 and pp2 themselves, else a node's link. */
  datatype Threads = Threads(pp1: Option<nat>, pp2: Option<nat>, tp0: Option<nat>, tp1: Option<nat>)

  /** Nodes from k on, pages off the list, and all counters are as they were. */
  ghost predicate Untouched(pages: seq<PageInfo>, was: seq<PageInfo>, list: seq<nat>, k: nat) {
    && |pages| == |was|
    && (forall m :: k <= m < |list| ==> list[m] < |pages| && pages[list[m]] == was[list[m]])
    && (forall p :: 0 <= p < |pages| ==> pages[p].ref == was[p].ref && (p !in list ==> pages[p] == was[p]))
  }

  lemma AssignUntouched(pages: seq<PageInfo>, pages': seq<PageInfo>, local: Option<nat>, local': Option<nat>,
                        tp: Option<nat>, v: Option<nat>, was: seq<PageInfo>, list: seq<nat>, k: nat)
    requires NoDup(list) && k <= |list| && Untouched(pages, was, list, k)
    requires Assigned(pages, pages', local, local', tp, v) && (tp.Some? ==> tp.value in list[..k])
    ensures Untouched(pages', was, list, k)
  {
  }

  /** The first k nodes have been appended to the two lists. */
  ghost predicate Threaded(pages: seq<PageInfo>, list: seq<nat>, k: nat, th: Threads)
    requires k <= |list|
  {
    Open(pages, th.pp1, th.tp0, Side(list[..k], false)) && Open(pages, th.pp2, th.tp1, Side(list[..k], true))
  }

  lemma TailsInList(pages: seq<PageInfo>, list: seq<nat>, k: nat, th: Threads)
    requires k <= |list| && Threaded(pages, list, k, th)
    ensures th.tp0.Some? ==> th.tp0.value in list[..k] && th.tp0.value < |pages|
    ensures th.tp1.Some? ==> th.tp1.value in list[..k] && th.tp1.value < |pages|
  {
    assert th.tp0.Some? ==> th.tp0.value in Side(list[..k], false);
    assert th.tp1.Some? ==> th.tp1.value in Side(list[..k], true);
  }

  lemma AppendThreaded(pages: seq<PageInfo>, pages': seq<PageInfo>, list: seq<nat>, k: nat, th: Threads, th': Threads)
    requires NoDup(list) && k < |list| && list[k] < |pages| && Threaded(pages, list, k, th)
    requires if High(list[k]) then
        && th' == th.(pp2 := th'.pp2, tp1 := Some(list[k]))
        && Assigned(pages, pages', th.pp2, th'.pp2, th.tp1, Some(list[k]))
      else
        && th' == th.(pp1 := th'.pp1, tp0 := Some(list[k]))
        && Assigned(pages, pages', th.pp1, th'.pp1, th.tp0, Some(list[k]))
    ensures Threaded(pages', list, k + 1, th')
  {
    NextSide(list, k, false);
    NextSide(list, k, true);
    var low, high := Side(list[..k], false), Side(list[..k], true);
    assert forall p :: p in low ==> p !in high;
    if High(list[k]) {
      AppendOne(pages, pages', th.pp2, th'.pp2, th.tp1, high, th.pp1, th.tp0, low, list[k]);
    } else {
      AppendOne(pages, pages', th.pp1, th'.pp1, th.tp0, low, th.pp2, th.tp1, high, list[k]);
    }
    hide Side;
    hide Open;
  }

  /** The two stores after the loop: the high list ends, and the low list goes on with it. */
  lemma Close(pages: seq<PageInfo>, pages1: seq<PageInfo>, pages2: seq<PageInfo>, th: Threads, pp2: Option<nat>,
              head: Option<nat>, low: seq<nat>, high: seq<nat>)
    requires Open(pages, th.pp1, th.tp0, low) && Open(pages, th.pp2, th.tp1, high) && NoDup(low + high)
    requires Assigned(pages, pages1, th.pp2, pp2, th.tp1, None) && Assigned(pages1, pages2, th.pp1, head, th.tp0, pp2)
    ensures Chain(pages2, head, low + high)
  {
    var xs := low + high;
    forall k | 0 <= k < |xs| ensures xs[k] < |pages2| && pages2[xs[k]].link == Nth(xs, k + 1) {
      assert xs[k] == if k < |low| then low[k] else high[k - |low|];
      assert k + 1 < |xs| ==> xs[k + 1] == if k + 1 < |low| then low[k + 1] else high[k + 1 - |low|];
      assert low != [] ==> xs[|low| - 1] == low[|low| - 1];
      assert high != [] ==> xs[|xs| - 1] == high[|high| - 1];
    }
    ChainOfLinks(pages2, head, xs);
  }

  /** One turn of the loop. */
  method Append(pages: array<PageInfo>, p: nat, th: Threads, ghost was: seq<PageInfo>, ghost list: seq<nat>,
                ghost k: nat)
    returns (th': Threads, next: Option<nat>)
    requires NoDup(list) && k < |list| && list[k] == p && Threaded(pages[..], list, k, th)
    requires Untouched(pages[..], was, list, k)
    modifies pages
    ensures Threaded(pages[..], list, k + 1, th') && Untouched(pages[..], was, list, k + 1)
    ensures p < |was| && next == was[p].link
  {
    hide Threaded;
    hide Open;
    hide Side;
    hide Assigned;
    TailsInList(pages[..], list, k, th);
    ghost var before := pages[..];
    if High(p) {
      var pp2 := Assign(pages, th.pp2, th.tp1, Some(p));
      th' := th.(pp2 := pp2, tp1 := Some(p));
      AssignUntouched(before, pages[..], th.pp2, pp2, th.tp1, Some(p), was, list, k);
    } else {
      var pp1 := Assign(pages, th.pp1, th.tp0, Some(p));
      th' := th.(pp1 := pp1, tp0 := Some(p));
      AssignUntouched(before, pages[..], th.pp1, pp1, th.tp0, Some(p), was, list, k);
    }
    AppendThreaded(before, pages[..], list, k, th, th');
    next := pages[p].link;
  }

  /** The stores after the loop. */
  method Finish(pages: array<PageInfo>, th: Threads, ghost was: seq<PageInfo>, ghost list: seq<nat>)
    returns (head: Option<nat>)
    requires NoDup(list) && Threaded(pages[..], list, |list|, th) && Untouched(pages[..], was, list, |list|)
    modifies pages
    ensures Chain(pages[..], head, Partition(list)) && Untouched(pages[..], was, list, |list|)
  {
    ghost var pages0 := pages[..];
    TailsInList(pages0, list, |list|, th);
    SidesNoDup(list);
    assert list[..|list|] == list;
    var pp2 := Assign(pages, th.pp2, th.tp1, None);
    ghost var pages1 := pages[..];
    head := Assign(pages, th.pp1, th.tp0, pp2);
    AssignUntouched(pages0, pages1, th.pp2, pp2, th.tp1, None, was, list, |list|);
    AssignUntouched(pages1, pages[..], th.pp1, head, th.tp0, pp2, was, list, |list|);
    hide Untouched;
    Close(pages0, pages1, pages[..], th, pp2, head, Side(list, false), Side(list, true));
  }

  /** Any list without a cycle becomes its stable partition, low pages first; nothing off the list changes. */
  method LowPagesFirst(pages: array<PageInfo>, pageFreeList: Option<nat>, ghost list: seq<nat>)
    returns (head: Option<nat>)
    requires Chain(pages[..], pageFreeList, list) && NoDup(list)
    modifies pages
    ensures Chain(pages[..], head, Partition(list))
    ensures forall p :: 0 <= p < pages.Length ==> pages[p].ref == old(pages[p].ref)
    ensures forall p :: 0 <= p < pages.Length && p !in list ==> pages[p] == old(pages[p])
  {
    hide Threaded;
    hide Untouched;
    hide Open;
    hide Side;
    hide Chain;
    hide NoDup;
    ghost var was := pages[..];
    var th := Threads(None, None, None, None);
    var pp := pageFreeList;
    ghost var k := 0;
    Start(was, pageFreeList, list);
    while pp != None
      invariant 0 <= k <= |list| && pp == Nth(list, k)
      invariant Threaded(pages[..], list, k, th) && Untouched(pages[..], was, list, k)
      decreases |list| - k
    {
      ChainMembers(was, pageFreeList, list, k);
      th, pp := Append(pages, pp.value, th, was, list, k);
      k := k + 1;
    }
    head := Finish(pages, th, was, list);
    OnlyLinks(pages[..], was, list);
  }

  lemma Start(was: seq<PageInfo>, head: Option<nat>, list: seq<nat>)
    requires Chain(was, head, list)
    ensures head == Nth(list, 0)
    ensures Threaded(was, list, 0, Threads(None, None, None, None)) && Untouched(was, was, list, 0)
  {
    assert list[..0] == [];
    forall m | 0 <= m < |list| ensures list[m] < |was| {
      ChainMembers(was, head, list, m);
    }
  }

  lemma OnlyLinks(pages: seq<PageInfo>, was: seq<PageInfo>, list: seq<nat>)
    requires Untouched(pages, was, list, |list|)
    ensures |pages| == |was|
    ensures forall p :: 0 <= p < |was| ==> pages[p].ref == was[p].ref && (p !in list ==> pages[p] == was[p])
  {
  }
}
