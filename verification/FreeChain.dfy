/**
  The pages[] array and the free list that its pp_link fields thread through it.
 */
module FreeChain {
  import opened Mmu

  /** struct PageInfo; a link is an index into pages[], None for NULL. */
  datatype PageInfo = PageInfo(link: Option<nat>, ref: nat)

  /** Following links from head visits exactly the pages of list, in order, and ends. */
  ghost predicate Chain(pages: seq<PageInfo>, head: Option<nat>, list: seq<nat>)
    decreases |list|
  {
    if list == [] then head == None
    else head == Some(list[0]) && list[0] < |pages| && Chain(pages, pages[list[0]].link, list[1..])
  }

  /** Changing the link of a page off the list, or any counter, leaves the chain. */
  lemma {:induction false} ChainFrame(pages: seq<PageInfo>, pages': seq<PageInfo>, head: Option<nat>, list: seq<nat>)
    requires Chain(pages, head, list) && |pages'| == |pages|
    requires forall p :: p in list && p < |pages| ==> pages'[p].link == pages[p].link
    ensures Chain(pages', head, list)
    decreases |list|
  {
    if list != [] {
      ChainFrame(pages, pages', pages[list[0]].link, list[1..]);
    }
  }

  lemma {:induction false} ChainMembers(pages: seq<PageInfo>, head: Option<nat>, list: seq<nat>, k: nat)
    requires Chain(pages, head, list) && k < |list|
    ensures list[k] < |pages|
    ensures pages[list[k]].link == if k + 1 < |list| then Some(list[k + 1]) else None
    decreases |list|
  {
    if k > 0 {
      ChainMembers(pages, pages[list[0]].link, list[1..], k - 1);
    }
  }

  /** Inserting a page at the head of the list. */
  lemma PushFree(pages: seq<PageInfo>, head: Option<nat>, list: seq<nat>, i: nat)
    requires Chain(pages, head, list) && i < |pages| && i !in list
    ensures Chain(pages[i := PageInfo(head, 0)], Some(i), [i] + list)
  {
    ChainFrame(pages, pages[i := PageInfo(head, 0)], head, list);
    assert ([i] + list)[1..] == list;
  }

  /** When the last page links back to the first, following the links never ends. */
  lemma {:induction false} RingHasNoEnd(pages: seq<PageInfo>, list: seq<nat>, k: nat, xs: seq<nat>)
    requires k < |list| && (forall m :: 0 <= m < |list| ==> list[m] < |pages|)
    requires forall m :: 0 <= m < |list| ==> pages[list[m]].link == Some(list[if m + 1 < |list| then m + 1 else 0])
    ensures !Chain(pages, Some(list[k]), xs)
    decreases |xs|
  {
    if xs != [] {
      RingHasNoEnd(pages, list, if k + 1 < |list| then k + 1 else 0, xs[1..]);
    }
  }

  /** Pushing the tail of a list a second time closes the list into a ring. */
  lemma PushTail(pages: seq<PageInfo>, head: Option<nat>, list: seq<nat>, tail: nat, xs: seq<nat>)
    requires Chain(pages, head, list) && list != [] && tail == list[|list| - 1]
    requires forall m :: 0 <= m < |list| - 1 ==> list[m] != tail
    ensures tail < |pages| && !Chain(pages[tail := PageInfo(head, 0)], Some(tail), xs)
  {
    ChainMembers(pages, head, list, |list| - 1);
    var pages' := pages[tail := PageInfo(head, 0)];
    forall m | 0 <= m < |list|
      ensures list[m] < |pages| && pages'[list[m]].link == Some(list[if m + 1 < |list| then m + 1 else 0])
    {
      ChainMembers(pages, head, list, m);
    }
    RingHasNoEnd(pages', list, |list| - 1, xs);
  }
}
