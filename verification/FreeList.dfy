/** The list of free pages on page 0 (include/storage/page/page.h), a counted array. */
module FreeList {
  import opened PageLists
  import opened ClusteredTree

  class Page0 {
    const slots: array<PageId>
    var count: nat

    constructor ()
      ensures Valid() && Contents() == [] && fresh(slots)
    {
      slots := new PageId[MAX_FREE_PAGES](_ => 0);
      count := 0;
    }

    predicate Valid()
      reads this
    {
      slots.Length == MAX_FREE_PAGES && count <= slots.Length
    }

    ghost function Contents(): seq<PageId>
      requires Valid()
      reads this, slots
    {
      slots[..count]
    }

    /** Takes the page that has been free longest and moves the others up. */
    method Pop() returns (found: bool, page: PageId)
      requires Valid()
      modifies this, slots
      ensures Valid()
      ensures found == (old(Contents()) != [])
      ensures found ==> page == old(Contents())[0] && Contents() == old(Contents())[1..]
      ensures !found ==> Contents() == []
    {
      if count == 0 {
        return false, 0;
      }
      page := slots[0];
      ghost var was := Contents();
      for i := 1 to count
        invariant Valid() && count == |was| && 1 <= i
        invariant forall k :: 0 <= k < i - 1 ==> slots[k] == was[k + 1]
        invariant forall k :: i <= k < count ==> slots[k] == was[k]
      {
        slots[i - 1] := slots[i];
      }
      count := count - 1;
      assert slots[..count] == was[1..];
      return true, page;
    }

    /** Puts a page at the end of the list, unless the list is full. */
    method Push(page: PageId) returns (ok: bool)
      requires Valid()
      modifies this, slots
      ensures Valid()
      ensures ok == (|old(Contents())| < MAX_FREE_PAGES)
      ensures Contents() == if ok then old(Contents()) + [page] else old(Contents())
    {
      if count >= MAX_FREE_PAGES {
        return false;
      }
      slots[count] := page;
      count := count + 1;
      return true;
    }
  }
}
