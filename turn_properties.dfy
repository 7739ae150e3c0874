/**
 * What the turn state machine guarantees: its invariant holds from load on,
 * each kind of click and the timer have exactly the effect the script gives
 * them, tries never go down and matched cards stay shown for the whole session.
 */
module TurnProperties {
  import opened Options
  import opened Deck
  import opened Display
  import opened Turn

  /** The state after load, whatever order the deck was shuffled into, satisfies the invariant. */
  lemma InitialInv(deck: seq<string>, markupText: string)
    ensures Inv(Initial(deck, markupText))
  {
  }

  /** The first selection of a turn shows the card and stores it, and changes nothing else. */
  lemma FirstSelection(g: Game, i: nat)
    requires Inv(g) && i < |g.deck| && g.canPlay && g.imageA.None?
    ensures Clicked(g, Card(i)) ==
              g.(background := g.background[i := ImageUrl(g.deck[i])],
                 imageA := Some(Selection(g.deck[i], i)))
    ensures Clicked(g, Card(i)).imageB.None?
  {
  }

  /**
   * The second selection of a turn counts exactly one try, relabels the
   * counter, clears both selections and resolves the turn: equal faces mark
   * both slots correct and keep play on; different faces keep play off and arm
   * the hide timer, which was not armed before.
   */
  lemma SecondSelection(g: Game, i: nat)
    requires Inv(g) && i < |g.deck| && g.canPlay && g.imageA.Some?
    ensures var r, a := Clicked(g, Card(i)), g.imageA.value;
      && r.tries == g.tries + 1
      && r.triesText == TriesText(g.tries + 1)
      && r.imageA.None? && r.imageB.None?
      && r.background == g.background[i := ImageUrl(g.deck[i])]
      && (r.canPlay <==> a.name == g.deck[i])
      && (a.name == g.deck[i] ==>
            r.correct == g.correct[a.slot := true][i := true] && !r.timerArmed && r.pendingTimers == 0)
      && (a.name != g.deck[i] ==>
            r.correct == g.correct && !g.timerArmed && r.timerArmed && r.pendingTimers == 1)
  {
  }

  /**
   * Nothing stops the pending slot from being selected again as the second
   * card: the card then matches itself, is marked correct and a try is counted.
   */
  lemma SelfMatch(g: Game, i: nat)
    requires Inv(g) && i < |g.deck| && g.imageA == Some(Selection(g.deck[i], i))
    ensures var r := Clicked(g, Card(i));
      r.correct == g.correct[i := true] && r.canPlay && r.tries == g.tries + 1
  {
  }

  /**
   * Concretely: right after load, two clicks on the first card mark it correct
   * while its twin (slot 1, the other "bird") stays unmatched.
   */
  lemma LoneCardMarkedCorrect(markupText: string)
    ensures var r := Run(Initial(Animals, markupText), [Press(Card(0)), Press(Card(0))]);
      r.correct[0] && !r.correct[1] && Animals[0] == Animals[1] && r.tries == 1
  {
    var g0 := Initial(Animals, markupText);
    var g1 := Clicked(g0, Card(0));
    var g2 := Clicked(g1, Card(0));
    assert Run(g0, [Press(Card(0)), Press(Card(0))]) == Run(g1, [Press(Card(0))]);
    assert Run(g1, [Press(Card(0))]) == g2;
    assert g1.imageA == Some(Selection(Animals[0], 0));
    assert g2.correct == g0.correct[0 := true][0 := true];
  }

  /**
   * A session on a deck whose first two cards match and whose third differs
   * (the unshuffled deck is one): a mismatch (slots 0 and 2) counts a try and
   * disables play until the timer fires, which turns both cards face down
   * again; the next turn (slots 0 and 1) counts a second try, marks both
   * correct and keeps play on, with no timer.
   */
  lemma MismatchThenMatch(deck: seq<string>, markupText: string)
    requires |deck| >= 3 && deck[0] == deck[1] && deck[0] != deck[2]
    ensures var g := Initial(deck, markupText);
      var afterMiss := Run(g, [Press(Card(0)), Press(Card(2))]);
      var afterHide := Run(afterMiss, [Timeout]);
      var afterHit := Run(afterHide, [Press(Card(0)), Press(Card(1))]);
      && afterMiss.tries == 1 && !afterMiss.canPlay && afterMiss.timerArmed
      && afterHide.background[0] == "" && afterHide.background[2] == "" && afterHide.canPlay
      && afterHit.tries == 2 && afterHit.correct[0] && afterHit.correct[1] && afterHit.canPlay
      && !afterHit.timerArmed
  {
    var g := Initial(deck, markupText);
    InitialInv(deck, markupText);
    FirstSelection(g, 0);
    ClickedInv(g, Card(0));
    var g1 := Clicked(g, Card(0));
    SecondSelection(g1, 2);
    ClickedInv(g1, Card(2));
    RunTwoClicks(g, 0, 2);
    var g2 := Clicked(g1, Card(2));
    HideResets(g2);
    HiddenInv(g2);
    RunTimeout(g2);
    var g3 := Hidden(g2);
    FirstSelection(g3, 0);
    ClickedInv(g3, Card(0));
    var g4 := Clicked(g3, Card(0));
    SecondSelection(g4, 1);
    RunTwoClicks(g3, 0, 1);
  }

  lemma RunTwoClicks(g: Game, i: nat, j: nat)
    requires Shaped(g) && i < |g.deck| && j < |g.deck|
    ensures Run(g, [Press(Card(i)), Press(Card(j))]) == Clicked(Clicked(g, Card(i)), Card(j))
  {
    var g1 := Clicked(g, Card(i));
    assert Run(g, [Press(Card(i)), Press(Card(j))]) == Run(g1, [Press(Card(j))]);
    assert Run(g1, [Press(Card(j))]) == Run(Clicked(g1, Card(j)), []);
  }

  lemma RunTimeout(g: Game)
    requires Shaped(g) && g.pendingTimers > 0
    ensures Run(g, [Timeout]) == Hidden(g)
  {
    assert Run(g, [Timeout]) == Run(Hidden(g), []);
  }

  /**
   * The hide callback leaves every matched slot shown and puts every other one
   * face down, enables play, forgets the timer and leaves no callback pending.
   */
  lemma HideResets(g: Game)
    requires Inv(g) && g.pendingTimers > 0
    ensures var r := Hidden(g);
      && (forall k :: 0 <= k < |g.deck| && g.correct[k] ==> r.background[k] == ImageUrl(g.deck[k]))
      && (forall k :: 0 <= k < |g.deck| && !g.correct[k] ==> r.background[k] == "")
      && r.canPlay && !r.timerArmed && r.pendingTimers == 0
      && r.correct == g.correct && r.tries == g.tries && r.imageA.None?
  {
  }

  /** A click keeps the invariant. */
  lemma ClickedInv(g: Game, t: Target)
    requires Inv(g) && InRange(g, t)
    ensures Inv(Clicked(g, t))
  {
    if t.Card? && g.canPlay {
      if g.imageA.None? {
        FirstSelectionInv(g, t.index);
      } else {
        SecondSelectionInv(g, t.index);
      }
    }
  }

  lemma FirstSelectionInv(g: Game, i: nat)
    requires Inv(g) && i < |g.deck| && g.canPlay && g.imageA.None?
    ensures Inv(Clicked(g, Card(i)))
  {
    FirstSelection(g, i);
  }

  lemma SecondSelectionInv(g: Game, i: nat)
    requires Inv(g) && i < |g.deck| && g.canPlay && g.imageA.Some?
    ensures Inv(Clicked(g, Card(i)))
  {
    SecondSelection(g, i);
  }

  /** The hide callback keeps the invariant. */
  lemma HiddenInv(g: Game)
    requires Inv(g) && g.pendingTimers > 0
    ensures Inv(Hidden(g))
  {
    HideResets(g);
  }

  lemma StepInv(g: Game, e: Event)
    requires Inv(g)
    ensures Inv(Step(g, e))
  {
    if Enabled(g, e) {
      match e
      case Press(t) => ClickedInv(g, t);
      case Timeout => HiddenInv(g);
    }
  }

  /**
   * Every state a session reaches satisfies the invariant: in particular, the
   * second selection is never pending between events, an armed timer means
   * play is off, and arming a timer never leaves an older one pending.
   */
  lemma {:induction false} RunInv(g: Game, events: seq<Event>)
    requires Inv(g)
    ensures Inv(Run(g, events))
    decreases |events|
  {
    if events != [] {
      StepInv(g, events[0]);
      RunInv(Step(g, events[0]), events[1..]);
    }
  }

  /** The tries counter never goes down, whatever the events. */
  lemma {:induction false} RunTriesMonotone(g: Game, events: seq<Event>)
    requires Shaped(g)
    ensures Run(g, events).tries >= g.tries
    decreases |events|
  {
    if events != [] {
      RunTriesMonotone(Step(g, events[0]), events[1..]);
    }
  }

  /** A matched slot stays matched and shown for the rest of the session. */
  lemma {:induction false} RunCorrectPermanent(g: Game, events: seq<Event>, k: nat)
    requires Inv(g) && k < |g.deck| && g.correct[k]
    ensures Run(g, events).correct[k]
    ensures Run(g, events).background[k] == ImageUrl(g.deck[k])
    decreases |events|
  {
    if events != [] {
      StepInv(g, events[0]);
      RunCorrectPermanent(Step(g, events[0]), events[1..], k);
    }
    RunInv(g, events);
  }
}
