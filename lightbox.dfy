/**
 * The lightbox overlay: which keys, swipes and clicks it turns into
 * close / next / previous requests, how it locks the page's scrolling while
 * open, and what it shows for a project and an image index.
 */
module Lightbox {
  import opened Wrappers
  import Projects

  /** The three requests the lightbox makes of the gallery that owns it. */
  datatype Action = CloseLightbox | ShowNext | ShowPrevious

  // --------------------------------------------------------- keyboard

  /** What a `keydown` does: the requests made, and whether the default is prevented. */
  datatype KeyOutcome = KeyOutcome(actions: seq<Action>, defaultPrevented: bool)

  /**
   * The window `keydown` handler, registered only while the lightbox is
   * open: Escape closes, ArrowRight goes forward, ArrowLeft goes back, each
   * preventing the browser's default; any other key does nothing.
   */
  function KeyDown(isOpen: bool, key: string): (r: KeyOutcome)
    ensures |r.actions| <= 1
    ensures r.defaultPrevented <==> r.actions != []
    ensures !isOpen ==> r.actions == []
  {
    if !isOpen then KeyOutcome([], false)
    else
      var actions :=
        (if key == "Escape" then [CloseLightbox] else []) +
        (if key == "ArrowRight" then [ShowNext] else []) +
        (if key == "ArrowLeft" then [ShowPrevious] else []);
      KeyOutcome(actions, actions != [])
  }

  /** Exactly the three keys act on an open lightbox, each with its own request. */
  lemma KeyDownActions(key: string)
    ensures KeyDown(true, "Escape").actions == [CloseLightbox]
    ensures KeyDown(true, "ArrowRight").actions == [ShowNext]
    ensures KeyDown(true, "ArrowLeft").actions == [ShowPrevious]
    ensures key != "Escape" && key != "ArrowRight" && key != "ArrowLeft" ==> KeyDown(true, key).actions == []
  {
  }

  // ------------------------------------------------------------ swipes

  /** The horizontal distance a swipe must exceed, in CSS pixels. */
  const SwipeThreshold: int := 50

  /** A finished touch moved by `deltaX`: far enough left is "next", far enough right is "previous". */
  function SwipeAction(deltaX: int): (r: Option<Action>)
    ensures r.Some? <==> deltaX < -SwipeThreshold || deltaX > SwipeThreshold
    ensures r == Some(ShowNext) <==> deltaX < -SwipeThreshold
    ensures r == Some(ShowPrevious) <==> deltaX > SwipeThreshold
  {
    if (if deltaX < 0 then -deltaX else deltaX) > SwipeThreshold then
      if deltaX < 0 then Some(ShowNext) else Some(ShowPrevious)
    else None
  }

  /** Mirroring a swipe swaps "next" and "previous". */
  lemma SwipeMirror(deltaX: int)
    ensures SwipeAction(deltaX) == Some(ShowNext) <==> SwipeAction(-deltaX) == Some(ShowPrevious)
    ensures SwipeAction(deltaX).None? <==> SwipeAction(-deltaX).None?
  {
  }

  /**
   * The touch area of the lightbox, with the `touchStartX` reference it
   * keeps between a touch's start and its end.
   */
  class SwipeArea {
    var touchStartX: Option<int>

    constructor()
      ensures touchStartX.None?
    {
      touchStartX := None;
    }

    /** `touchstart`: remembers the first touch's x coordinate, or forgets when there is none. */
    method TouchStart(touches: seq<int>)
      modifies this
      ensures touchStartX == if touches == [] then None else Some(touches[0])
    {
      touchStartX := if touches == [] then None else Some(touches[0]);
    }

    /**
     * `touchend`: without a remembered start nothing happens; otherwise the
     * first changed touch's movement may request next or previous, and the
     * start is forgotten in every case.
     */
    method TouchEnd(changedTouches: seq<int>) returns (action: Option<Action>)
      modifies this
      ensures touchStartX.None?
      ensures old(touchStartX).None? || changedTouches == [] ==> action.None?
      ensures old(touchStartX).Some? && changedTouches != [] ==>
        action == SwipeAction(changedTouches[0] - old(touchStartX).value)
    {
      if touchStartX.None? {
        return None;
      }
      if changedTouches == [] {
        touchStartX := None;
        return None;
      }
      var deltaX := changedTouches[0] - touchStartX.value;
      action := SwipeAction(deltaX);
      touchStartX := None;
    }
  }

  /** A swipe from `startX` to `endX`, as one start and one end. */
  method Swipe(area: SwipeArea, startX: int, endX: int) returns (action: Option<Action>)
    modifies area
    ensures action == SwipeAction(endX - startX)
    ensures area.touchStartX.None?
  {
    area.TouchStart([startX]);
    action := area.TouchEnd([endX]);
  }

  // ------------------------------------------------------------ clicks

  /**
   * Where a click lands: the backdrop itself, one of the three buttons, or
   * any other part of the dialog's content (image, captions, counter).
   */
  datatype ClickTarget = Backdrop | CloseButton | PreviousButton | NextButton | Content

  /**
   * The requests one click makes. Each button handles its click and stops it
   * from bubbling; the backdrop closes only for clicks on itself, not for
   * clicks that bubble up from its content. The arrow buttons exist only
   * when the project has more than one image; otherwise that spot is content.
   */
  function ClickActions(target: ClickTarget, totalImages: int): (r: seq<Action>)
    ensures |r| <= 1
    ensures CloseLightbox in r <==> target == Backdrop || target == CloseButton
    ensures ShowNext in r <==> target == NextButton && totalImages > 1
    ensures ShowPrevious in r <==> target == PreviousButton && totalImages > 1
    ensures r == [] <==> target == Content || (totalImages <= 1 && (target == NextButton || target == PreviousButton))
  {
    match target
    case Backdrop => [CloseLightbox]
    case CloseButton => [CloseLightbox]
    case PreviousButton => if totalImages > 1 then [ShowPrevious] else []
    case NextButton => if totalImages > 1 then [ShowNext] else []
    case Content => []
  }

  // ---------------------------------------------------- scroll locking

  /**
   * The page body's `overflow` style and the value the lightbox saved from
   * it when it opened (present exactly while it is open).
   */
  class ScrollLock {
    var overflow: string
    var saved: Option<string>

    /** Nothing saved while the lightbox is closed; the body is `hidden` while it is open. */
    ghost predicate Valid()
      reads this
    {
      saved.Some? ==> overflow == "hidden"
    }

    constructor(bodyOverflow: string)
      ensures overflow == bodyOverflow && saved.None?
      ensures Valid()
    {
      overflow := bodyOverflow;
      saved := None;
    }

    /**
     * The effect that follows `isOpen`: opening saves the body's overflow and
     * sets it to `hidden`; closing (the effect's cleanup) puts the saved
     * value back; an unchanged `isOpen` does nothing.
     */
    method SetOpen(isOpen: bool)
      requires Valid()
      modifies this
      ensures Valid()
      ensures saved.Some? <==> isOpen
      ensures isOpen && old(saved).None? ==> saved == Some(old(overflow)) && overflow == "hidden"
      ensures !isOpen && old(saved).Some? ==> overflow == old(saved).value
      ensures isOpen == old(saved).Some? ==> overflow == old(overflow) && saved == old(saved)
    {
      if isOpen && saved.None? {
        saved := Some(overflow);
        overflow := "hidden";
      } else if !isOpen && saved.Some? {
        overflow := saved.value;
        saved := None;
      }
    }
  }

  /** Opening and then closing the lightbox leaves the page's overflow as it was. */
  method OpenThenClose(lock: ScrollLock)
    requires lock.Valid() && lock.saved.None?
    modifies lock
    ensures lock.Valid() && lock.saved.None?
    ensures lock.overflow == old(lock.overflow)
  {
    lock.SetOpen(true);
    lock.SetOpen(false);
  }

  // ----------------------------------------------------------- display

  /** What the open lightbox shows; `None` in `position` stands for `NaN`. */
  datatype View = View(
    title: string,
    category: string,
    image: Option<string>,
    position: Option<int>,
    total: int,
    showArrows: bool)

  /**
   * `images[imageIndex] ?? images[0]`, where `None` stands for an index that
   * is `NaN`: an index outside the list falls back to the first image, and
   * an empty list shows nothing.
   */
  function CurrentImage(images: seq<string>, imageIndex: Option<int>): (r: Option<string>)
    ensures imageIndex.Some? && 0 <= imageIndex.value < |images| ==> r == Some(images[imageIndex.value])
    ensures !(imageIndex.Some? && 0 <= imageIndex.value < |images|) && images != [] ==> r == Some(images[0])
    ensures images == [] ==> r.None?
  {
    if imageIndex.Some? && 0 <= imageIndex.value < |images| then Some(images[imageIndex.value])
    else if images != [] then Some(images[0])
    else None
  }

  /**
   * The rendered lightbox: nothing unless it is open and has a project;
   * otherwise the title, the category, the current image, the counter
   * `imageIndex + 1 / total`, and the arrow buttons when there is more than
   * one image.
   */
  function Render(project: Option<Projects.Project>, isOpen: bool, imageIndex: Option<int>): (r: Option<View>)
    ensures r.Some? <==> isOpen && project.Some?
    ensures r.Some? ==>
      && r.value.title == project.value.title
      && r.value.category == project.value.category
      && r.value.total == |project.value.images|
      && (r.value.position.Some? <==> imageIndex.Some?)
      && (imageIndex.Some? ==> r.value.position.value == imageIndex.value + 1)
      && (r.value.showArrows <==> |project.value.images| > 1)
      && r.value.image == CurrentImage(project.value.images, imageIndex)
  {
    if !isOpen || project.None? then None
    else
      var p := project.value;
      var total := |p.images|;
      var position := if imageIndex.Some? then Some(imageIndex.value + 1) else None;
      Some(View(p.title, p.category, CurrentImage(p.images, imageIndex), position, total, total > 1))
  }
}
