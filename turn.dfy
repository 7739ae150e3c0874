/**
 * The game's turn state machine as values: what a click on the grid and the
 * firing of the hide timer do to the whole game state (js/scripts.js:30-38 and
 * 57-124). The class in module Game performs the same steps in place and is
 * proved against these functions.
 */
module Turn {
  import opened Options
  import opened Deck
  import opened Display

  /** What a click in the grid container landed on: a card slot, or anything else. */
  datatype Target = Outside | Card(index: nat)

  /** A pending selection: the face shown and the slot it was shown on. */
  datatype Selection = Selection(name: string, slot: nat)

  /**
   * The state the script keeps. `background[k]` is slot k's inline background
   * image ("" when face down), `correct[k]` its "matched" marker. `timerArmed`
   * says whether `timeoutId` holds a handle; `pendingTimers` counts hide
   * callbacks scheduled and not yet run or cancelled. `triesText` is the
   * label's text.
   */
  datatype Game = Game(
    deck: seq<string>,
    background: seq<string>,
    correct: seq<bool>,
    imageA: Option<Selection>,
    imageB: Option<Selection>,
    canPlay: bool,
    tries: nat,
    timerArmed: bool,
    pendingTimers: nat,
    triesText: string)

  /** The events the page delivers: a click in the container, or the hide timer firing. */
  datatype Event = Press(target: Target) | Timeout

  /** Per-slot data lines up with the deck and pending selections name real slots. */
  predicate Shaped(g: Game) {
    |g.background| == |g.deck| && |g.correct| == |g.deck|
    && (g.imageA.Some? ==> g.imageA.value.slot < |g.deck|)
    && (g.imageB.Some? ==> g.imageB.value.slot < |g.deck|)
  }

  /** A click whose target the page can deliver: a card index is a child position. */
  predicate InRange(g: Game, t: Target) {
    t.Card? ==> t.index < |g.deck|
  }

  /** The state right after load: all cards face down, nothing matched, play enabled. */
  function Initial(deck: seq<string>, markupText: string): (g: Game)
    ensures Shaped(g) && g.deck == deck && g.tries == 0 && g.canPlay
    ensures forall k :: 0 <= k < |deck| ==> g.background[k] == "" && !g.correct[k]
  {
    Game(deck, seq(|deck|, _ => ""), seq(|deck|, _ => false), None, None, true, 0, false, 0, markupText)
  }

  /** checkImages: store the first selection, or store the second, count the try and resolve. */
  function Checked(g: Game, name: string, slot: nat): (r: Game)
    requires Shaped(g) && slot < |g.deck|
    ensures Shaped(r) && r.deck == g.deck && r.background == g.background
  {
    if g.imageA.None? then g.(imageA := Some(Selection(name, slot)))
    else Resolved(Paired(g, name, slot))
  }

  /**
   * The second selection is stored (unless one is already pending), play is
   * disabled, a try is counted and the label rewritten.
   */
  function Paired(g: Game, name: string, slot: nat): (r: Game)
    requires Shaped(g) && slot < |g.deck| && g.imageA.Some?
    ensures Shaped(r) && r.imageA == g.imageA && r.imageB.Some?
  {
    if g.imageB.None? then
      g.(imageB := Some(Selection(name, slot)), canPlay := false,
         tries := g.tries + 1, triesText := TriesText(g.tries + 1))
    else g
  }

  /**
   * The comparison: equal names mark both slots correct and enable play;
   * different names arm the hide timer (without cancelling any earlier one);
   * then both selections are forgotten.
   */
  function Resolved(g: Game): (r: Game)
    requires Shaped(g) && g.imageA.Some? && g.imageB.Some?
    ensures Shaped(r) && r.imageA.None? && r.imageB.None?
  {
    var a, b := g.imageA.value, g.imageB.value;
    var g1 :=
      if a.name == b.name then g.(correct := g.correct[a.slot := true][b.slot := true], canPlay := true)
      else g;
    var g2 :=
      if a.name != b.name then g1.(timerArmed := true, pendingTimers := g1.pendingTimers + 1)
      else g1;
    g2.(imageA := None, imageB := None)
  }

  /** showCardImage: ignored while play is disabled; otherwise show the face and check it. */
  function Shown(g: Game, i: nat): (r: Game)
    requires Shaped(g) && i < |g.deck|
    ensures Shaped(r) && r.deck == g.deck
  {
    if !g.canPlay then g
    else Checked(g.(background := g.background[i := ImageUrl(g.deck[i])]), g.deck[i], i)
  }

  /**
   * The container's click listener. A click off the cards, or while play is
   * disabled, changes nothing; any click adds at most one try and never takes
   * a match away.
   */
  function Clicked(g: Game, t: Target): (r: Game)
    requires Shaped(g) && InRange(g, t)
    ensures Shaped(r) && r.deck == g.deck
    ensures t.Outside? || !g.canPlay ==> r == g
    ensures r.tries == g.tries || r.tries == g.tries + 1
    ensures forall k :: 0 <= k < |g.deck| && g.correct[k] ==> r.correct[k]
  {
    match t
    case Outside => g
    case Card(i) => Shown(g, i)
  }

  /** The forEach of hideImages: every slot not marked correct loses its background. */
  function HideUnmatched(background: seq<string>, correct: seq<bool>): (r: seq<string>)
    requires |correct| == |background|
    ensures |r| == |background|
  {
    seq(|background|, k requires 0 <= k < |background| => if correct[k] then background[k] else "")
  }

  /**
   * hideImages, run by the runtime when a scheduled callback fires: hide the
   * unmatched cards, cancel the timer `timeoutId` names (which is another
   * pending callback only when two are pending), forget the handle, enable play.
   */
  function Hidden(g: Game): (r: Game)
    requires Shaped(g) && g.pendingTimers > 0
    ensures Shaped(r) && r.deck == g.deck && r.correct == g.correct && r.tries == g.tries
    ensures r.canPlay && !r.timerArmed
    ensures forall k :: 0 <= k < |g.deck| ==>
              r.background[k] == (if g.correct[k] then g.background[k] else "")
  {
    g.(background := HideUnmatched(g.background, g.correct),
       pendingTimers := if g.timerArmed && g.pendingTimers >= 2 then g.pendingTimers - 2
                        else g.pendingTimers - 1,
       timerArmed := false,
       canPlay := true)
  }

  /** Whether the page can deliver the event in this state. */
  predicate Enabled(g: Game, e: Event) {
    match e
    case Press(t) => InRange(g, t)
    case Timeout => g.pendingTimers > 0
  }

  /** One event; an event the page cannot deliver in this state leaves it alone. */
  function Step(g: Game, e: Event): (r: Game)
    requires Shaped(g)
    ensures Shaped(r) && r.deck == g.deck
  {
    if !Enabled(g, e) then g
    else match e
      case Press(t) => Clicked(g, t)
      case Timeout => Hidden(g)
  }

  /** A session: the events in order. */
  function Run(g: Game, events: seq<Event>): (r: Game)
    requires Shaped(g)
    ensures Shaped(r) && r.deck == g.deck
    decreases |events|
  {
    if events == [] then g else Run(Step(g, events[0]), events[1..])
  }

  /**
   * What holds between events in every reachable state: there is never a second selection pending; a
   * pending first selection is shown and play is on; play is off exactly while
   * the hide timer is armed, and then exactly one callback is pending; every
   * background is "" or the image of the slot's own face; matched slots are
   * shown; once a try is counted the label shows it.
   */
  predicate Inv(g: Game) {
    Shaped(g)
    && g.imageB.None?
    && (g.imageA.Some? ==>
          var a := g.imageA.value;
          g.canPlay && a.name == g.deck[a.slot] && g.background[a.slot] == ImageUrl(a.name))
    && g.canPlay == !g.timerArmed
    && g.pendingTimers == (if g.timerArmed then 1 else 0)
    && (forall k :: 0 <= k < |g.deck| ==> g.background[k] == "" || g.background[k] == ImageUrl(g.deck[k]))
    && (forall k :: 0 <= k < |g.deck| && g.correct[k] ==> g.background[k] == ImageUrl(g.deck[k]))
    && (g.tries > 0 ==> g.triesText == TriesText(g.tries))
  }
}
