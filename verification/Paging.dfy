/** Reading a WebDAV directory page by page. */
module Paging {
  import opened Wrappers

  /** One page: its entries, whether it comes with EOF, and the next position. */
  datatype Page<+T> = Page(entries: seq<T>, eof: bool, next: nat)

  /** What Readdir(count) returns at position `pos`; a count of zero or less asks for all the rest. */
  function PageAt<T>(infos: seq<T>, pos: nat, count: int): (p: Page<T>)
    requires pos <= |infos|
    ensures pos <= p.next <= |infos| && p.entries == infos[pos..p.next]
  {
    if pos >= |infos| then Page([], count > 0, pos)
    else if count <= 0 then Page(infos[pos..], false, |infos|)
    else
      var end := if pos + count > |infos| then |infos| else pos + count;
      Page(infos[pos..end], end >= |infos|, end)
  }

  function Pages<T>(infos: seq<T>, counts: seq<int>): (r: seq<Page<T>>)
    ensures |r| == |counts|
    ensures r != [] ==> r[|r| - 1].next <= |infos|
  {
    if counts == [] then [] else
    var earlier := Pages(infos, counts[..|counts| - 1]);
    earlier + [PageAt(infos, if earlier == [] then 0 else earlier[|earlier| - 1].next, counts[|counts| - 1])]
  }

  function Entries<T>(pages: seq<Page<T>>): seq<T> {
    if pages == [] then [] else Entries(pages[..|pages| - 1]) + pages[|pages| - 1].entries
  }

  function Sum(counts: seq<int>): int {
    if counts == [] then 0 else Sum(counts[..|counts| - 1]) + counts[|counts| - 1]
  }

  predicate AsksForAll(counts: seq<int>) {
    exists i | 0 <= i < |counts| :: counts[i] <= 0
  }

  /** How far the counts reach into a listing of n entries. */
  function Reached(counts: seq<int>, n: nat): int {
    if AsksForAll(counts) || Sum(counts) >= n then n else Sum(counts)
  }

  lemma {:induction false} SumPositive(counts: seq<int>)
    requires !AsksForAll(counts)
    ensures Sum(counts) >= 0
  {
    if counts != [] {
      assert forall i | 0 <= i < |counts| - 1 :: counts[..|counts| - 1][i] == counts[i];
      SumPositive(counts[..|counts| - 1]);
    }
  }

  /** One more count moves the reader as PageAt does. */
  lemma ReachedStep<T>(infos: seq<T>, counts: seq<int>)
    requires counts != []
    ensures var from := Reached(counts[..|counts| - 1], |infos|);
            0 <= from <= |infos| && PageAt(infos, from, counts[|counts| - 1]).next == Reached(counts, |infos|)
  {
    var n := |counts| - 1;
    var init := counts[..n];
    assert forall i | 0 <= i < n :: init[i] == counts[i];
    if !AsksForAll(init) { SumPositive(init); }
  }

  /**
   For every sequence of counts, the pages one after another are the listing up to where the counts
   reach: no entry twice, none skipped. A page has EOF exactly if its count is positive and it brings
   the reader to the end.
   */
  lemma {:induction false} PagesAreTheListing<T>(infos: seq<T>, counts: seq<int>)
    ensures var pages, reached := Pages(infos, counts), Reached(counts, |infos|);
            && 0 <= reached <= |infos|
            && Entries(pages) == infos[..reached]
            && (pages != [] ==>
                  && pages[|pages| - 1].next == reached
                  && (pages[|pages| - 1].eof <==> counts[|counts| - 1] > 0 && reached == |infos|)
                  && (counts[|counts| - 1] > 0 ==> |pages[|pages| - 1].entries| <= counts[|counts| - 1]))
  {
    if counts != [] {
      var n := |counts| - 1;
      var init := counts[..n];
      PagesAreTheListing(infos, init);
      ReachedStep(infos, counts);
      assert Pages(infos, counts)[..n] == Pages(infos, init);
      var from, to := Reached(init, |infos|), Reached(counts, |infos|);
      assert infos[..to] == infos[..from] + infos[from..to];
    }
  }

  class Directory<T> {
    var dirLoaded: bool
    var dirPos: nat
    var dirInfos: seq<T>

    ghost predicate Valid()
      reads this
    {
      dirPos <= |dirInfos|
    }

    constructor ()
      ensures Valid() && !dirLoaded && dirPos == 0
    {
      dirLoaded, dirPos, dirInfos := false, 0, [];
    }

    /** `listing` is the remote's ReadDir answer, asked for once; None is an error. */
    method Readdir(count: int, listing: Option<seq<T>>) returns (r: Option<Page<T>>)
      requires Valid() && (!dirLoaded ==> dirPos == 0)
      modifies this
      ensures Valid() && (!dirLoaded ==> dirPos == 0)
      ensures old(dirLoaded) ==> dirLoaded && dirInfos == old(dirInfos)
      ensures !old(dirLoaded) ==>
                if listing.None? then r.None? && !dirLoaded else dirLoaded && dirInfos == listing.value
      ensures dirLoaded ==>
                old(dirPos) <= |dirInfos| && r == Some(PageAt(dirInfos, old(dirPos), count)) && dirPos == r.value.next
    {
      if !dirLoaded {
        if listing.None? {
          return None;
        }
        dirInfos := listing.value;
        dirLoaded := true;
      }
      if dirPos >= |dirInfos| {
        return Some(Page([], count > 0, dirPos));
      }
      if count <= 0 {
        var remaining := dirInfos[dirPos..];
        dirPos := |dirInfos|;
        return Some(Page(remaining, false, dirPos));
      }
      var end := dirPos + count;
      if end > |dirInfos| {
        end := |dirInfos|;
      }
      var out := dirInfos[dirPos..end];
      dirPos := end;
      return Some(Page(out, dirPos >= |dirInfos|, dirPos));
    }
  }
}
