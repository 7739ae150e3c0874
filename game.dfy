/**
 * The script's module-level state and functions as one object: the deck array
 * shuffled in place, one background and one "correct" marker per card slot,
 * the two selections, the play flag, the tries counter and its label, and the
 * timer handle (js/scripts.js:24-124). Every operation is proved to perform
 * exactly the step that module Turn (or, for the deck, module Deck) defines on
 * values.
 */
module Game {
  import opened Options
  import opened Deck
  import opened Display
  import opened Turn
  import opened TurnProperties

  class Controller {
    var deck: array<string>
    var background: array<string>
    var correct: array<bool>
    var imageA: Option<Selection>
    var imageB: Option<Selection>
    var canPlay: bool
    var tries: nat
    var timerArmed: bool
    /** Hide callbacks the runtime has scheduled and not yet run or cancelled. */
    ghost var pendingTimers: nat
    var triesText: string

    /** The whole state as a value of module Turn. */
    ghost function Snapshot(): Game
      reads this, deck, background, correct
    {
      Game(deck[..], background[..], correct[..], imageA, imageB, canPlay, tries,
           timerArmed, pendingTimers, triesText)
    }

    /** Object invariant: the deck and the backgrounds are distinct arrays, and the turn invariant. */
    ghost predicate Valid()
      reads this, deck, background, correct
    {
      deck != background && Inv(Snapshot())
    }

    /** The deck holds the declared faces in some order. No operation after load writes it. */
    ghost predicate Dealt()
      reads this, deck
    {
      multiset(deck[..]) == multiset(Animals)
    }

    /**
     * Page load, before the shuffle: the declared deck, all slots face down,
     * nothing selected, play enabled, no tries, no timer. The label keeps the
     * text the markup gave it.
     */
    constructor Load(markupText: string)
      ensures Valid() && Dealt()
      ensures deck[..] == Animals && Snapshot() == Initial(deck[..], markupText)
      ensures fresh(deck) && fresh(background) && fresh(correct)
    {
      deck := new string[CardCount](k requires 0 <= k < CardCount => Animals[k]);
      background := new string[CardCount](_ => "");
      correct := new bool[CardCount](_ => false);
      imageA, imageB := None, None;
      canPlay := true;
      tries := 0;
      timerArmed := false;
      pendingTimers := 0;
      triesText := markupText;
      new;
      assert deck[..] == Animals by {
        assert forall k :: 0 <= k < CardCount ==> deck[k] == Animals[k];
      }
      assert background[..] == seq(CardCount, _ => "");
      assert correct[..] == seq(CardCount, _ => false);
      InitialInv(deck[..], markupText);
    }

    /**
     * shuffleAnimals, run once before any click can arrive: reorders the deck
     * array in place, one exchange at a time; only the order changes.
     */
    method Shuffle(swaps: seq<(nat, nat)>)
      requires deck != background && Snapshot() == Initial(deck[..], triesText)
      modifies deck
      ensures deck[..] == ApplySwaps(old(deck[..]), swaps)
      ensures multiset(deck[..]) == multiset(old(deck[..]))
      ensures Valid() && Snapshot() == Initial(deck[..], triesText)
    {
      var k := 0;
      while k < |swaps|
        invariant k <= |swaps|
        invariant ApplySwaps(deck[..], swaps[k..]) == ApplySwaps(old(deck[..]), swaps)
      {
        assert swaps[k..][0] == swaps[k] && swaps[k..][1..] == swaps[k + 1..];
        Exchange(swaps[k]);
        k := k + 1;
      }
      assert swaps[k..] == [];
      assert background[..] == seq(deck.Length, _ => "");
      assert correct[..] == seq(deck.Length, _ => false);
      InitialInv(deck[..], triesText);
    }

    /** One exchange of the given sequence, performed on the deck array. */
    method Exchange(p: (nat, nat))
      modifies deck
      ensures deck[..] == SwapAt(old(deck[..]), p)
    {
      if deck.Length > 0 {
        var i, j := p.0 % deck.Length, p.1 % deck.Length;
        var held := deck[i];
        deck[i] := deck[j];
        deck[j] := held;
      }
    }

    /**
     * The container's click listener: a click off the cards, or while play is
     * disabled, does nothing; otherwise the card is shown and checked.
     */
    method Click(t: Target)
      requires Valid() && (t.Card? ==> t.index < deck.Length)
      modifies this, background, correct
      ensures Valid()
      ensures deck == old(deck) && background == old(background) && correct == old(correct)
      ensures Snapshot() == Clicked(old(Snapshot()), t)
    {
      ClickedInv(Snapshot(), t);
      match t
      case Outside =>
      case Card(i) => ShowCardImage(i);
    }

    /** showCardImage. */
    method ShowCardImage(i: nat)
      requires deck != background && Shaped(Snapshot()) && i < deck.Length
      modifies this, background, correct
      ensures deck == old(deck) && background == old(background) && correct == old(correct)
      ensures Snapshot() == Shown(old(Snapshot()), i)
    {
      if !canPlay {
        return;
      }
      background[i] := ImageUrl(deck[i]);
      CheckImages(deck[i], i);
    }

    /** checkImages: store the first selection, or store the second and resolve the turn. */
    method CheckImages(name: string, slot: nat)
      requires Shaped(Snapshot()) && slot < deck.Length
      modifies this, correct
      ensures deck == old(deck) && background == old(background) && correct == old(correct)
      ensures Snapshot() == Checked(old(Snapshot()), name, slot)
    {
      if imageA.None? {
        imageA := Some(Selection(name, slot));
        return;
      }
      if imageB.None? {
        imageB := Some(Selection(name, slot));
        canPlay := false;
        tries := tries + 1;
        triesText := TriesText(tries);
      }
      assert Snapshot() == Paired(old(Snapshot()), name, slot);
      ResolveTurn();
    }

    /** The comparison half of checkImages. */
    method ResolveTurn()
      requires Shaped(Snapshot()) && imageA.Some? && imageB.Some?
      modifies this, correct
      ensures deck == old(deck) && background == old(background) && correct == old(correct)
      ensures Snapshot() == Resolved(old(Snapshot()))
    {
      var a, b := imageA.value, imageB.value;
      if a.name == b.name {
        correct[a.slot] := true;
        correct[b.slot] := true;
        canPlay := true;
      }
      if a.name != b.name {
        timerArmed := true;
        pendingTimers := pendingTimers + 1;
      }
      imageA := None;
      imageB := None;
    }

    /**
     * hideImages, run when the scheduled callback fires: every slot not marked
     * correct is turned face down, the handle is cleared and play is enabled.
     */
    method FireTimer()
      requires Valid() && pendingTimers > 0
      modifies this, background
      ensures Valid()
      ensures deck == old(deck) && background == old(background) && correct == old(correct)
      ensures Snapshot() == Hidden(old(Snapshot()))
    {
      HiddenInv(Snapshot());
      var k := 0;
      while k < background.Length
        invariant k <= background.Length
        invariant deck == old(deck) && background == old(background) && correct == old(correct)
        invariant Snapshot() == old(Snapshot()).(background := background[..])
        invariant forall m :: 0 <= m < k ==> background[m] == (if correct[m] then old(background[m]) else "")
        invariant forall m :: k <= m < background.Length ==> background[m] == old(background[m])
      {
        if !correct[k] {
          background[k] := "";
        }
        k := k + 1;
      }
      // The callback now running has left the queue; clearTimeout cancels the
      // callback the handle names if that one is still queued.
      ghost var queued: int := pendingTimers - 1;
      if timerArmed && queued > 0 {
        queued := queued - 1;
      }
      pendingTimers := queued;
      timerArmed := false;
      canPlay := true;
      assert background[..] == HideUnmatched(old(background[..]), correct[..]);
    }
  }

  /** The script's top level: build the state, then shuffle the deck once. */
  method Start(swaps: seq<(nat, nat)>, markupText: string) returns (c: Controller)
    ensures fresh(c) && c.Valid() && c.Dealt()
    ensures c.Snapshot() == Initial(ApplySwaps(Animals, swaps), markupText)
  {
    c := new Controller.Load(markupText);
    ghost var unshuffled := c.deck[..];
    c.Shuffle(swaps);
    assert c.Snapshot() == Initial(ApplySwaps(unshuffled, swaps), markupText);
    assert unshuffled == Animals;
  }
}
