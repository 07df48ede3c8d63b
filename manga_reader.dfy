/**
 * The full-screen reader's own state: a zoom level changed in steps of ten
 * between 50% and 150%, and the previous/next buttons, which navigate only
 * when the page was given a chapter id for them.
 */
module MangaReader {
  import opened Wrappers

  const MinZoom := 50
  const MaxZoom := 150
  const ZoomStep := 10
  const InitialZoom := 100

  /** A zoom level the reader can show. */
  predicate ValidZoom(z: int) {
    MinZoom <= z <= MaxZoom && z % ZoomStep == 0
  }

  /** The zoom-in button: ten more, unless already at the maximum. */
  function ZoomedIn(z: int): int {
    if z < MaxZoom then z + ZoomStep else z
  }

  /** The zoom-out button: ten less, unless already at the minimum. */
  function ZoomedOut(z: int): int {
    if z > MinZoom then z - ZoomStep else z
  }

  /** Both buttons keep the zoom a multiple of ten within 50..150; each changes it by ten or not at all. */
  lemma ZoomStaysValid(z: int)
    requires ValidZoom(z)
    ensures ValidZoom(ZoomedIn(z)) && ValidZoom(ZoomedOut(z))
    ensures ZoomedIn(z) == z + ZoomStep || (z == MaxZoom && ZoomedIn(z) == z)
    ensures ZoomedOut(z) == z - ZoomStep || (z == MinZoom && ZoomedOut(z) == z)
  {
  }

  /** Zooming in then out, below the maximum, restores the level; zooming out then in, above the minimum, too. */
  lemma ZoomInThenOut(z: int)
    requires ValidZoom(z)
    ensures z < MaxZoom ==> ZoomedOut(ZoomedIn(z)) == z
    ensures z > MinZoom ==> ZoomedIn(ZoomedOut(z)) == z
  {
  }

  /** The zoom after a series of presses, `true` for zoom in and `false` for zoom out. */
  function ZoomAfter(z: int, presses: seq<bool>): int
    decreases |presses|
  {
    if presses == [] then z
    else ZoomAfter(if presses[0] then ZoomedIn(z) else ZoomedOut(z), presses[1..])
  }

  /** However the buttons are pressed, the zoom stays a valid level. */
  lemma {:induction false} ZoomAfterIsValid(z: int, presses: seq<bool>)
    requires ValidZoom(z)
    ensures ValidZoom(ZoomAfter(z, presses))
    decreases |presses|
  {
    if presses != [] {
      ZoomStaysValid(z);
      ZoomAfterIsValid(if presses[0] then ZoomedIn(z) else ZoomedOut(z), presses[1..]);
    }
  }

  /** `k` presses of the same button. */
  function Presses(zoomIn: bool, k: nat): (r: seq<bool>)
    ensures |r| == k && forall i :: 0 <= i < k ==> r[i] == zoomIn
  {
    if k == 0 then [] else [zoomIn] + Presses(zoomIn, k - 1)
  }

  /** From a valid level, `k` presses in one direction move by ten each, up to the bound. */
  lemma {:induction false} RepeatedPresses(z: int, zoomIn: bool, k: nat)
    requires ValidZoom(z)
    requires zoomIn ==> z + k * ZoomStep <= MaxZoom
    requires !zoomIn ==> z - k * ZoomStep >= MinZoom
    ensures ZoomAfter(z, Presses(zoomIn, k)) == if zoomIn then z + k * ZoomStep else z - k * ZoomStep
    decreases k
  {
    if k > 0 {
      var p := Presses(zoomIn, k);
      assert p[0] == zoomIn && p[1..] == Presses(zoomIn, k - 1);
      var next := if zoomIn then ZoomedIn(z) else ZoomedOut(z);
      assert next == if zoomIn then z + ZoomStep else z - ZoomStep;
      RepeatedPresses(next, zoomIn, k - 1);
    }
  }

  /** Every valid level can be reached from the initial 100%, so the bounds are the only limit. */
  lemma EveryValidZoomIsReachable(z: int)
    requires ValidZoom(z)
    ensures z >= InitialZoom ==> ZoomAfter(InitialZoom, Presses(true, (z - InitialZoom) / ZoomStep)) == z
    ensures z < InitialZoom ==> ZoomAfter(InitialZoom, Presses(false, (InitialZoom - z) / ZoomStep)) == z
  {
    if z >= InitialZoom {
      RepeatedPresses(InitialZoom, true, (z - InitialZoom) / ZoomStep);
    } else {
      RepeatedPresses(InitialZoom, false, (InitialZoom - z) / ZoomStep);
    }
  }

  /** A route of the application: the reader page of chapter `chapterId` of title `mangaId`. */
  datatype Location = ChapterPage(mangaId: int, chapterId: int)

  /** JavaScript truthiness of an optional chapter id: defined and not 0. */
  predicate Truthy(link: Option<int>) {
    link.Some? && link.value != 0
  }

  /** The previous/next buttons: navigate to the linked chapter when there is one, else stay. */
  function Follow(at: Location, mangaId: int, link: Option<int>): (r: Location)
    ensures !Truthy(link) ==> r == at
    ensures Truthy(link) ==> r.mangaId == mangaId && Some(r.chapterId) == link
  {
    if Truthy(link) then ChapterPage(mangaId, link.value) else at
  }

  /** The reader of one chapter, with the neighbours the page passed it. */
  class Reader {
    const mangaId: int
    const prevChapterId: Option<int>
    const nextChapterId: Option<int>
    var zoomLevel: int
    var location: Location

    ghost predicate Valid()
      reads this
    {
      ValidZoom(zoomLevel)
    }

    /** The reader opens at 100% on the chapter's own page. */
    constructor (mangaId: int, chapterId: int, prevChapterId: Option<int>, nextChapterId: Option<int>)
      ensures Valid()
      ensures zoomLevel == InitialZoom && location == ChapterPage(mangaId, chapterId)
      ensures this.mangaId == mangaId && this.prevChapterId == prevChapterId && this.nextChapterId == nextChapterId
    {
      this.mangaId := mangaId;
      this.prevChapterId := prevChapterId;
      this.nextChapterId := nextChapterId;
      zoomLevel := InitialZoom;
      location := ChapterPage(mangaId, chapterId);
    }

    method ZoomIn()
      requires Valid()
      modifies this`zoomLevel
      ensures Valid()
      ensures zoomLevel == ZoomedIn(old(zoomLevel))
    {
      if zoomLevel < MaxZoom {
        zoomLevel := zoomLevel + ZoomStep;
      }
    }

    method ZoomOut()
      requires Valid()
      modifies this`zoomLevel
      ensures Valid()
      ensures zoomLevel == ZoomedOut(old(zoomLevel))
    {
      if zoomLevel > MinZoom {
        zoomLevel := zoomLevel - ZoomStep;
      }
    }

    method GoToPreviousChapter()
      modifies this`location
      ensures location == Follow(old(location), mangaId, prevChapterId)
    {
      if Truthy(prevChapterId) {
        location := ChapterPage(mangaId, prevChapterId.value);
      }
    }

    method GoToNextChapter()
      modifies this`location
      ensures location == Follow(old(location), mangaId, nextChapterId)
    {
      if Truthy(nextChapterId) {
        location := ChapterPage(mangaId, nextChapterId.value);
      }
    }
  }
}
