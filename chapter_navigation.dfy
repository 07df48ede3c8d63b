/**
 * The reader page's previous/next chapter links: the title's chapters are
 * copied and sorted by chapter number (a stable sort, so equal numbers keep
 * the order the server sent), the current chapter is looked up by id, and
 * its neighbours in that order become the links.
 */
module ChapterNavigation {
  import opened Wrappers
  import opened Seqs
  import opened Schema

  /** The two links; `None` is `undefined`, which disables the button. */
  datatype Neighbours = Neighbours(prev: Option<int>, next: Option<int>)

  /** Both links start undefined. */
  const NoNeighbours := Neighbours(None, None)

  function ByNumber(c: Chapter): int {
    c.chapterNumber
  }

  /** The sorted copy: ascending chapter number, equal numbers in their original order. */
  function ReadingOrder(chapters: seq<Chapter>): (r: seq<Chapter>)
    ensures |r| == |chapters| && multiset(r) == multiset(chapters)
    ensures SortedBy(r, ByNumber)
  {
    SortBy(chapters, ByNumber)
  }

  /** Where chapter `id` sits in the reading order, or -1. */
  function Position(chapters: seq<Chapter>, id: int): (i: int)
    ensures -1 <= i < |chapters|
    ensures 0 <= i ==> ReadingOrder(chapters)[i].id == id && ReadingOrder(chapters)[i] in chapters
    ensures 0 <= i ==> forall j :: 0 <= j < i ==> ReadingOrder(chapters)[j].id != id
    ensures i == -1 ==> forall c :: c in chapters ==> c.id != id
  {
    var sorted := ReadingOrder(chapters);
    var i := FindIndex(sorted, (c: Chapter) => c.id == id);
    if i == -1 then
      assert forall c :: c in chapters ==> c.id != id by {
        forall c | c in chapters ensures c.id != id {
          assert c in multiset(sorted);
        }
      }
      i
    else
      assert sorted[i] in multiset(chapters);
      i
  }

  /** The neighbours of chapter `id`, as the page computes them. */
  function NeighboursOf(chapters: seq<Chapter>, id: int): Neighbours {
    var sorted := ReadingOrder(chapters);
    var i := Position(chapters, id);
    Neighbours(if i > 0 then Some(sorted[i - 1].id) else None,
               if i < |sorted| - 1 then Some(sorted[i + 1].id) else None)
  }

  /**
   * The effect that refreshes the links: it runs only when both the title's
   * chapter list and the current chapter have loaded, and otherwise the links
   * keep the values they had.
   */
  function OnDataChange(links: Neighbours, chapters: Option<seq<Chapter>>, current: Option<Chapter>): (r: Neighbours)
    ensures chapters.None? || current.None? ==> r == links
    ensures chapters.Some? && current.Some? ==> r == NeighboursOf(chapters.value, current.value.id)
  {
    if chapters.Some? && current.Some? then NeighboursOf(chapters.value, current.value.id) else links
  }

  /** Until both have loaded the page shows no links. */
  lemma LinksWaitForData(chapters: Option<seq<Chapter>>, current: Option<Chapter>)
    requires chapters.None? || current.None?
    ensures OnDataChange(NoNeighbours, chapters, current) == NoNeighbours
  {
  }

  /** A listed chapter, ids being distinct, sits in reading order at its position and nowhere else. */
  lemma PresentAtPosition(chapters: seq<Chapter>, current: Chapter)
    requires current in chapters && DistinctBy(chapters, ChapterIdOf)
    ensures DistinctBy(ReadingOrder(chapters), ChapterIdOf)
    ensures 0 <= Position(chapters, current.id) && ReadingOrder(chapters)[Position(chapters, current.id)] == current
  {
    var sorted := ReadingOrder(chapters);
    PermutationKeepsDistinctBy(chapters, sorted, ChapterIdOf);
    assert current in multiset(sorted);
    var k :| 0 <= k < |sorted| && sorted[k] == current;
    var i := Position(chapters, current.id);
    assert i != -1;
    assert ChapterIdOf(sorted[i]) == ChapterIdOf(sorted[k]);
  }

  /** The chapter at position `i` of the reading order is a chapter of the list. */
  lemma SortedMember(chapters: seq<Chapter>, i: int)
    requires 0 <= i < |chapters|
    ensures ReadingOrder(chapters)[i] in chapters
  {
    assert ReadingOrder(chapters)[i] in multiset(chapters);
  }

  /**
   * For a chapter of the list (ids distinct, as the store guarantees): the
   * previous link is the chapter just before it in reading order and is
   * missing exactly for the first, the next link the chapter just after it
   * and missing exactly for the last; neither link points at the chapter
   * itself, and the numbers are ordered previous <= current <= next.
   */
  lemma NeighboursOfPresent(chapters: seq<Chapter>, current: Chapter)
    requires current in chapters && DistinctBy(chapters, ChapterIdOf)
    ensures var sorted := ReadingOrder(chapters);
            var n := NeighboursOf(chapters, current.id);
            var i := Position(chapters, current.id);
            0 <= i && sorted[i] == current &&
            (n.prev.None? <==> sorted[0] == current) &&
            (n.next.None? <==> sorted[|sorted| - 1] == current) &&
            (n.prev.Some? ==> n.prev == Some(sorted[i - 1].id) && n.prev != Some(current.id) &&
                              sorted[i - 1] in chapters && sorted[i - 1].chapterNumber <= current.chapterNumber) &&
            (n.next.Some? ==> n.next == Some(sorted[i + 1].id) && n.next != Some(current.id) &&
                              sorted[i + 1] in chapters && current.chapterNumber <= sorted[i + 1].chapterNumber)
  {
    PresentAtPosition(chapters, current);
    var sorted := ReadingOrder(chapters);
    var i := Position(chapters, current.id);
    var last := |sorted| - 1;
    if i > 0 {
      assert ChapterIdOf(sorted[i - 1]) != ChapterIdOf(sorted[i]);
      assert ByNumber(sorted[i - 1]) <= ByNumber(sorted[i]);
      SortedMember(chapters, i - 1);
      assert ChapterIdOf(sorted[0]) != ChapterIdOf(sorted[i]);
    }
    if i < last {
      assert ChapterIdOf(sorted[i + 1]) != ChapterIdOf(sorted[i]);
      assert ByNumber(sorted[i]) <= ByNumber(sorted[i + 1]);
      SortedMember(chapters, i + 1);
      assert ChapterIdOf(sorted[i]) != ChapterIdOf(sorted[last]);
    }
  }

  /** The first chapter in reading order has the lowest number of the list. */
  lemma LowestComesFirst(chapters: seq<Chapter>)
    requires chapters != []
    ensures ReadingOrder(chapters)[0] in chapters
    ensures forall c :: c in chapters ==> ReadingOrder(chapters)[0].chapterNumber <= c.chapterNumber
  {
    var sorted := ReadingOrder(chapters);
    assert sorted[0] in multiset(chapters);
    forall c | c in chapters ensures sorted[0].chapterNumber <= c.chapterNumber {
      assert c in multiset(sorted);
      var j :| 0 <= j < |sorted| && sorted[j] == c;
      if j > 0 {
        assert ByNumber(sorted[0]) <= ByNumber(sorted[j]);
      }
    }
  }

  /** Of the chapters sharing the lowest number, the sort puts first the one listed first. */
  lemma LowestKeepsListOrder(chapters: seq<Chapter>)
    requires chapters != []
    ensures var low := ReadingOrder(chapters)[0];
            |KeyRun(chapters, ByNumber, low.chapterNumber)| > 0 && KeyRun(chapters, ByNumber, low.chapterNumber)[0] == low
  {
    var sorted := ReadingOrder(chapters);
    var low := sorted[0];
    SortByIsStable(chapters, ByNumber, low.chapterNumber);
    assert sorted == [low] + sorted[1..];
    KeyRunCons(low, sorted[1..], ByNumber, low.chapterNumber);
  }

  /**
   * A chapter id that is not in a non-empty list gives index -1: no previous
   * link, and a next link to the lowest-numbered chapter (the first of them
   * in list order when several share that number).
   */
  lemma NeighboursOfAbsent(chapters: seq<Chapter>, id: int)
    requires chapters != [] && forall c :: c in chapters ==> c.id != id
    ensures var n := NeighboursOf(chapters, id);
            var low := ReadingOrder(chapters)[0];
            n.prev.None? && n.next == Some(low.id) &&
            low in chapters && (forall c :: c in chapters ==> low.chapterNumber <= c.chapterNumber) &&
            |KeyRun(chapters, ByNumber, low.chapterNumber)| > 0 && KeyRun(chapters, ByNumber, low.chapterNumber)[0] == low
  {
    LowestComesFirst(chapters);
    LowestKeepsListOrder(chapters);
  }

  /** An empty list gives no links. */
  lemma NeighboursOfEmpty(id: int)
    ensures NeighboursOf([], id) == NoNeighbours
  {
  }
}
