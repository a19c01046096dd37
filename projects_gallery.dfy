/**
 * The gallery page's lightbox state: which project is open and which of its
 * images is shown, the wrap-around stepping between images, and the
 * messages the page sends to an embedding parent frame (plus its scroll to
 * the top) each time the open project changes.
 */
module ProjectsGallery {
  import opened Wrappers
  import opened JsBuiltins
  import Projects
  import Lightbox

  /** The two messages posted to the parent frame: `sp-gallery:lightbox-open` and `-close`. */
  datatype Message = LightboxOpen | LightboxClose

  /** What the page does outside itself: post a message to its parent frame, or scroll to the top. */
  datatype Effect = PostToParent(message: Message) | ScrollToTop

  // ------------------------------------------------------ image stepping

  /** `(current + 1) % length`, the image after `current`. */
  function NextIndex(current: int, length: int): (r: int)
    requires length > 0
    ensures 0 <= current < length ==> 0 <= r < length
  {
    JsRem(current + 1, length)
  }

  /** `(current - 1 + length) % length`, the image before `current`. */
  function PreviousIndex(current: int, length: int): (r: int)
    requires length > 0
    ensures 0 <= current < length ==> 0 <= r < length
  {
    JsRem(current - 1 + length, length)
  }

  /** Stepping forward moves one place and wraps from the last image to the first. */
  lemma NextIndexSteps(current: int, length: int)
    requires 0 <= current < length
    ensures NextIndex(current, length) == if current == length - 1 then 0 else current + 1
  {
  }

  /** Stepping back moves one place and wraps from the first image to the last. */
  lemma PreviousIndexSteps(current: int, length: int)
    requires 0 <= current < length
    ensures PreviousIndex(current, length) == if current == 0 then length - 1 else current - 1
  {
    if current > 0 {
      assert current - 1 + length == (current - 1) + 1 * length;
    }
  }

  /** Back undoes forward and forward undoes back. */
  lemma StepsInverse(current: int, length: int)
    requires 0 <= current < length
    ensures PreviousIndex(NextIndex(current, length), length) == current
    ensures NextIndex(PreviousIndex(current, length), length) == current
  {
    NextIndexSteps(current, length);
    PreviousIndexSteps(current, length);
    NextIndexSteps(PreviousIndex(current, length), length);
    PreviousIndexSteps(NextIndex(current, length), length);
  }

  /** The image reached after `k` steps forward. */
  function NextTimes(current: int, length: int, k: nat): (r: int)
    requires 0 <= current < length
    ensures 0 <= r < length
  {
    if k == 0 then current else NextIndex(NextTimes(current, length, k - 1), length)
  }

  /** Before the end of the list is reached, `k` steps forward add `k`. */
  lemma {:induction false} NextTimesBelow(current: int, length: int, k: nat)
    requires 0 <= current < length && current + k < length
    ensures NextTimes(current, length, k) == current + k
  {
    if k > 0 {
      NextTimesBelow(current, length, k - 1);
      NextIndexSteps(current + k - 1, length);
    }
  }

  /** `a` steps and then `b` steps are `a + b` steps. */
  lemma {:induction false} NextTimesAdd(current: int, length: int, a: nat, b: nat)
    requires 0 <= current < length
    ensures NextTimes(current, length, a + b) == NextTimes(NextTimes(current, length, a), length, b)
  {
    if b > 0 {
      NextTimesAdd(current, length, a, b - 1);
    }
  }

  /** Stepping forward once per image goes all the way round, back to the start. */
  lemma NextTimesCycle(current: int, length: int)
    requires 0 <= current < length
    ensures NextTimes(current, length, length) == current
  {
    var toEnd := length - 1 - current;
    NextTimesBelow(current, length, toEnd);
    NextIndexSteps(length - 1, length);
    assert NextTimes(current, length, toEnd + 1) == 0;
    NextTimesBelow(0, length, current);
    NextTimesAdd(current, length, toEnd + 1, current);
  }

  /**
   * The step on the state, where `None` stands for `NaN`: a `NaN` index stays
   * `NaN`, and so does any step in a project with no images (`% 0`).
   */
  function StepImage(current: Option<int>, length: nat, forward: bool): (r: Option<int>)
    ensures r.Some? <==> current.Some? && length > 0
    ensures current.Some? && 0 <= current.value < length ==> r.Some? && 0 <= r.value < length
  {
    if current.None? || length == 0 then None
    else if forward then Some(NextIndex(current.value, length))
    else Some(PreviousIndex(current.value, length))
  }

  // ------------------------------------------------------------ messages

  /** The messages among `effects`, in order. */
  function Posts(effects: seq<Effect>): seq<Message> {
    if effects == [] then []
    else
      var last := match effects[|effects| - 1]
        case PostToParent(m) => [m]
        case ScrollToTop => [];
      Posts(effects[..|effects| - 1]) + last
  }

  /** A message is among the posts exactly when the log holds an effect posting it. */
  lemma {:induction false} PostsMembers(effects: seq<Effect>, m: Message)
    ensures m in Posts(effects) <==> PostToParent(m) in effects
    decreases |effects|
  {
    if effects != [] {
      var init := effects[..|effects| - 1];
      PostsMembers(init, m);
      assert effects == init + [effects[|effects| - 1]];
    }
  }

  lemma {:induction false} PostsAppend(a: seq<Effect>, b: seq<Effect>)
    ensures Posts(a + b) == Posts(a) + Posts(b)
    decreases |b|
  {
    if b == [] {
      assert a + b == a;
    } else {
      assert (a + b)[..|a + b| - 1] == a + b[..|b| - 1];
      PostsAppend(a, b[..|b| - 1]);
    }
  }

  /** The message that describes an open (`Some`) or closed (`None`) lightbox. */
  function StateMessage(activeProjectIndex: Option<nat>): Message {
    if activeProjectIndex.None? then LightboxClose else LightboxOpen
  }

  /**
   * What the page's effect does once `activeProjectIndex` has a new value:
   * with no project it tells an embedding parent that the lightbox closed;
   * with one it scrolls to the top and then tells an embedding parent that
   * the lightbox opened.
   */
  function IndexEffects(activeProjectIndex: Option<nat>, embedded: bool): (r: seq<Effect>)
    ensures ScrollToTop in r <==> activeProjectIndex.Some?
    ensures Posts(r) == if embedded then [StateMessage(activeProjectIndex)] else []
  {
    var post := if embedded then [PostToParent(StateMessage(activeProjectIndex))] else [];
    assert Posts(post) == if embedded then [StateMessage(activeProjectIndex)] else [];
    if activeProjectIndex.None? then post
    else
      assert Posts([ScrollToTop]) == [];
      PostsAppend([ScrollToTop], post);
      [ScrollToTop] + post
  }

  // ------------------------------------------------------------- gallery

  class Gallery {
    const projects: seq<Projects.Project>
    /** Whether the page runs inside a parent frame. */
    const embedded: bool
    var activeProjectIndex: Option<nat>
    /** `None` stands for `NaN`, which a project with no images produces. */
    var activeImageIndex: Option<int>
    /** Every message posted and every scroll, oldest first. */
    var effects: seq<Effect>

    /** `projects[activeProjectIndex] ?? null`: the open project, if the index names one. */
    function ActiveProject(): (r: Option<Projects.Project>)
      reads this
      ensures r.Some? <==> activeProjectIndex.Some? && activeProjectIndex.value < |projects|
      ensures r.Some? ==> r.value == projects[activeProjectIndex.value]
    {
      if activeProjectIndex.Some? && activeProjectIndex.value < |projects|
      then Some(projects[activeProjectIndex.value])
      else None
    }

    /** The lightbox is shown exactly when there is an open project. */
    predicate IsOpen()
      reads this
    {
      ActiveProject().Some?
    }

    /**
     * Without an open project the image index is 0; with one that has
     * images it names one of them. A parent frame has been told the current
     * state by the last message, and a page that is not embedded has posted
     * nothing.
     */
    ghost predicate Valid()
      reads this
    {
      && (ActiveProject().None? ==> activeImageIndex == Some(0))
      && (ActiveProject().Some? && |ActiveProject().value.images| > 0 ==>
            activeImageIndex.Some? && 0 <= activeImageIndex.value < |ActiveProject().value.images|)
      && (!embedded ==> Posts(effects) == [])
      && (embedded ==> Posts(effects) != [] && Posts(effects)[|Posts(effects)| - 1] == StateMessage(activeProjectIndex))
    }

    /** Mounting: nothing open, image 0, and the effect's first run for a `null` index. */
    constructor(projects: seq<Projects.Project>, embedded: bool)
      ensures this.projects == projects && this.embedded == embedded
      ensures activeProjectIndex.None? && activeImageIndex == Some(0)
      ensures effects == IndexEffects(None, embedded)
      ensures Valid()
    {
      this.projects := projects;
      this.embedded := embedded;
      activeProjectIndex := None;
      activeImageIndex := Some(0);
      effects := IndexEffects(None, embedded);
    }

    /** Records the effect run that follows a change of `activeProjectIndex`. */
    method RunIndexEffect(previous: Option<nat>)
      modifies this
      ensures activeProjectIndex == old(activeProjectIndex) && activeImageIndex == old(activeImageIndex)
      ensures effects == old(effects) +
        (if previous == activeProjectIndex then [] else IndexEffects(activeProjectIndex, embedded))
    {
      if previous != activeProjectIndex {
        effects := effects + IndexEffects(activeProjectIndex, embedded);
      }
    }

    /** `openProject(index)`: opens that project at its first image. */
    method Open(index: nat)
      requires Valid()
      modifies this
      ensures Valid()
      ensures activeProjectIndex == Some(index) && activeImageIndex == Some(0)
      ensures effects == old(effects) +
        (if old(activeProjectIndex) == Some(index) then [] else IndexEffects(Some(index), embedded))
    {
      var previous := activeProjectIndex;
      activeProjectIndex := Some(index);
      activeImageIndex := Some(0);
      RunIndexEffect(previous);
      PostsAppend(old(effects), effects[|old(effects)|..]);
      assert old(effects) + effects[|old(effects)|..] == effects;
    }

    /** `closeLightbox`: closes the lightbox and resets the image index. */
    method Close()
      requires Valid()
      modifies this
      ensures Valid()
      ensures activeProjectIndex.None? && activeImageIndex == Some(0)
      ensures effects == old(effects) + (if old(activeProjectIndex).None? then [] else IndexEffects(None, embedded))
    {
      var previous := activeProjectIndex;
      activeProjectIndex := None;
      activeImageIndex := Some(0);
      RunIndexEffect(previous);
      PostsAppend(old(effects), effects[|old(effects)|..]);
      assert old(effects) + effects[|old(effects)|..] == effects;
    }

    /** `showNextImage` (`forward`) and `showPreviousImage`: step within the open project, if any. */
    method Step(forward: bool)
      requires Valid()
      modifies this
      ensures Valid()
      ensures activeProjectIndex == old(activeProjectIndex) && effects == old(effects)
      ensures old(ActiveProject()).None? ==> activeImageIndex == old(activeImageIndex)
      ensures old(ActiveProject()).Some? ==>
        activeImageIndex == StepImage(old(activeImageIndex), |old(ActiveProject()).value.images|, forward)
    {
      var project := ActiveProject();
      if project.None? {
        return;
      }
      activeImageIndex := StepImage(activeImageIndex, |project.value.images|, forward);
    }

    /** Carries out one request of the lightbox. */
    method Dispatch(action: Lightbox.Action)
      requires Valid()
      modifies this
      ensures Valid()
      ensures action == Lightbox.CloseLightbox ==> activeProjectIndex.None? && activeImageIndex == Some(0)
      ensures action == Lightbox.CloseLightbox ==>
        effects == old(effects) + (if old(activeProjectIndex).None? then [] else IndexEffects(None, embedded))
      ensures action != Lightbox.CloseLightbox ==>
        activeProjectIndex == old(activeProjectIndex) && effects == old(effects)
      ensures action != Lightbox.CloseLightbox && old(ActiveProject()).None? ==>
        activeImageIndex == old(activeImageIndex)
      ensures action != Lightbox.CloseLightbox && old(ActiveProject()).Some? ==>
        activeImageIndex ==
          StepImage(old(activeImageIndex), |old(ActiveProject()).value.images|, action == Lightbox.ShowNext)
    {
      match action
      case CloseLightbox => Close();
      case ShowNext => Step(true);
      case ShowPrevious => Step(false);
    }

    /**
     * A key pressed while the page is shown: the lightbox's key handler
     * (installed only while it is open) and the requests it makes.
     */
    method PressKey(key: string) returns (defaultPrevented: bool)
      requires Valid()
      modifies this
      ensures Valid()
      ensures defaultPrevented <==> Lightbox.KeyDown(old(IsOpen()), key).actions != []
      ensures !old(IsOpen()) ==>
        activeProjectIndex == old(activeProjectIndex) && activeImageIndex == old(activeImageIndex) && effects == old(effects)
      ensures old(IsOpen()) && key == "Escape" ==>
        activeProjectIndex.None? && activeImageIndex == Some(0) && effects == old(effects) + IndexEffects(None, embedded)
      ensures old(IsOpen()) && (key == "ArrowRight" || key == "ArrowLeft") ==>
        && activeProjectIndex == old(activeProjectIndex) && effects == old(effects)
        && activeImageIndex ==
             StepImage(old(activeImageIndex), |old(ActiveProject()).value.images|, key == "ArrowRight")
      ensures key != "Escape" && key != "ArrowRight" && key != "ArrowLeft" ==>
        activeProjectIndex == old(activeProjectIndex) && activeImageIndex == old(activeImageIndex) && effects == old(effects)
    {
      var outcome := Lightbox.KeyDown(IsOpen(), key);
      if outcome.actions != [] {
        Dispatch(outcome.actions[0]);
      }
      defaultPrevented := outcome.defaultPrevented;
    }

    /** The lightbox as the gallery renders it. */
    function LightboxView(): (r: Option<Lightbox.View>)
      reads this
      ensures r.Some? <==> IsOpen()
    {
      Lightbox.Render(ActiveProject(), IsOpen(), activeImageIndex)
    }
  }

  /**
   * In a consistent gallery the lightbox never needs its fallback: it shows
   * the image the index names, and the counter lies between 1 and the total.
   */
  lemma ViewShowsActiveImage(g: Gallery)
    requires g.Valid() && g.IsOpen() && g.ActiveProject().value.images != []
    ensures g.LightboxView().Some?
    ensures var v := g.LightboxView().value; var images := g.ActiveProject().value.images;
      && v.image == Some(images[g.activeImageIndex.value])
      && v.position.Some? && 1 <= v.position.value <= v.total == |images|
  {
  }

  /** Scrolling to the top happens exactly when a project is opened that was not open before. */
  lemma ScrollOnlyOnOpen(previous: Option<nat>, current: Option<nat>, embedded: bool)
    ensures ScrollToTop in (if previous == current then [] else IndexEffects(current, embedded)) <==>
      current.Some? && previous != current
  {
  }

  /**
   * An embedded gallery with one two-image project: open it, step forward
   * twice (round to the first image again), close it. The parent frame
   * hears "close" at mount, then "open", then "close", and the page scrolls
   * once.
   */
  method OpenStepCloseScenario(project: Projects.Project) returns (g: Gallery)
    requires |project.images| == 2
    ensures g.activeProjectIndex.None? && g.activeImageIndex == Some(0)
    ensures g.effects ==
      [PostToParent(LightboxClose), ScrollToTop, PostToParent(LightboxOpen), PostToParent(LightboxClose)]
  {
    g := new Gallery([project], true);
    g.Open(0);
    g.Step(true);
    assert g.activeImageIndex == Some(1);
    g.Step(true);
    assert g.activeImageIndex == Some(0);
    g.Close();
  }
}
