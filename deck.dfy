/**
 * The deck of card faces and its one-time shuffle (js/scripts.js, lines 27 and 40-51).
 */
module Deck {

  /** The twelve face names in the order the script declares them. */
  const Animals: seq<string> :=
    ["bird", "bird", "cat", "cat", "elephant", "elephant",
     "horse", "horse", "lion", "lion", "squirrel", "squirrel"]

  /** The six distinct faces. */
  const AnimalNames: set<string> := {"bird", "cat", "elephant", "horse", "lion", "squirrel"}

  /** Number of cards, and therefore of slots in the grid. */
  const CardCount: nat := 12

  /**
   * One exchange of two positions; positions are reduced modulo the length, so
   * every pair of naturals names an exchange and no caller has to be restricted.
   */
  function SwapAt(s: seq<string>, p: (nat, nat)): (r: seq<string>)
    ensures |r| == |s|
    ensures multiset(r) == multiset(s)
  {
    if |s| == 0 then s
    else
      var i, j := p.0 % |s|, p.1 % |s|;
      s[i := s[j]][j := s[i]]
  }

  /**
   * The outcome of the in-place random sort. That outcome is some permutation of
   * the deck, given here as a sequence of exchanges; EveryPermutationReachable
   * shows that this rules out no outcome.
   */
  function ApplySwaps(s: seq<string>, swaps: seq<(nat, nat)>): (r: seq<string>)
    ensures |r| == |s|
    ensures multiset(r) == multiset(s)
    decreases |swaps|
  {
    if swaps == [] then s else ApplySwaps(SwapAt(s, swaps[0]), swaps[1..])
  }

  /**
   * Completeness of the shuffle model: every rearrangement of the deck is the
   * outcome of some sequence of exchanges, so the model excludes no shuffle the
   * script could produce.
   */
  lemma EveryPermutationReachable(s: seq<string>, t: seq<string>)
    requires multiset(s) == multiset(t)
    ensures exists sw :: ApplySwaps(s, sw) == t
  {
    assert |s| == |multiset(s)| == |multiset(t)| == |t|;
    assert s[..0] == t[..0];
    assert s[0..] == s && t[0..] == t;
    var sw := SwapsFrom(s, t, 0);
  }

  /**
   * Selection by exchanges: with the first k positions already right, bring
   * each wanted face forward in turn.
   */
  lemma {:induction false} SwapsFrom(s: seq<string>, t: seq<string>, k: nat) returns (sw: seq<(nat, nat)>)
    requires |s| == |t| && k <= |s|
    requires s[..k] == t[..k]
    requires multiset(s[k..]) == multiset(t[k..])
    ensures ApplySwaps(s, sw) == t
    decreases |s| - k
  {
    if k == |s| {
      assert s == s[..k] && t == t[..k];
      sw := [];
    } else {
      var j := FindAt(s, t[k], k);
      SwapInRange(s, k, j);
      PlaceStep(s, t, k, j);
      var rest := SwapsFrom(s[k := s[j]][j := s[k]], t, k + 1);
      ApplySwapsCons(s, (k, j), rest);
      sw := [(k, j)] + rest;
    }
  }

  /** Performing one exchange first and then the rest is performing them all. */
  lemma ApplySwapsCons(s: seq<string>, p: (nat, nat), sw: seq<(nat, nat)>)
    ensures ApplySwaps(s, [p] + sw) == ApplySwaps(SwapAt(s, p), sw)
  {
    assert ([p] + sw)[0] == p && ([p] + sw)[1..] == sw;
  }

  /** A face that occurs in the suffix from k occurs at some position of it. */
  lemma FindAt(s: seq<string>, x: string, k: nat) returns (j: nat)
    requires k <= |s|
    requires x in multiset(s[k..])
    ensures k <= j < |s| && s[j] == x
  {
    var m :| 0 <= m < |s[k..]| && s[k..][m] == x;
    j := k + m;
  }

  /** With both positions inside the list, an exchange is the plain two-point update. */
  lemma SwapInRange(s: seq<string>, k: nat, j: nat)
    requires k <= j < |s|
    ensures SwapAt(s, (k, j)) == s[k := s[j]][j := s[k]]
  {
    assert k % |s| == k && j % |s| == j;
  }

  /** An exchange inside the suffix from k keeps the prefix and the suffix's contents. */
  lemma SuffixSwap(s: seq<string>, k: nat, j: nat)
    requires k <= j < |s|
    ensures s[k := s[j]][j := s[k]][..k] == s[..k]
    ensures multiset(s[k := s[j]][j := s[k]][k..]) == multiset(s[k..])
  {
    var s' := s[k := s[j]][j := s[k]];
    assert s == s[..k] + s[k..];
    assert s' == s'[..k] + s'[k..];
    assert s'[..k] == s[..k];
  }

  /** Bringing the wanted face to position k fixes one more position of the target. */
  lemma PlaceStep(s: seq<string>, t: seq<string>, k: nat, j: nat)
    requires |s| == |t| && k <= j < |s|
    requires s[..k] == t[..k] && s[j] == t[k]
    requires multiset(s[k..]) == multiset(t[k..])
    ensures s[k := s[j]][j := s[k]][..k + 1] == t[..k + 1]
    ensures multiset(s[k := s[j]][j := s[k]][k + 1..]) == multiset(t[k + 1..])
  {
    var s' := s[k := s[j]][j := s[k]];
    SuffixSwap(s, k, j);
    assert s'[..k + 1] == s'[..k] + [s'[k]];
    assert t[..k + 1] == t[..k] + [t[k]];
    SameTail(s'[k..], t[k..]);
    assert s'[k..][1..] == s'[k + 1..];
    assert t[k..][1..] == t[k + 1..];
  }

  /** Two lists with the same contents and the same first element have tails with the same contents. */
  lemma SameTail(a: seq<string>, b: seq<string>)
    requires |a| > 0 && |b| > 0 && a[0] == b[0]
    requires multiset(a) == multiset(b)
    ensures multiset(a[1..]) == multiset(b[1..])
  {
    assert a == [a[0]] + a[1..];
    assert b == [b[0]] + b[1..];
    assert multiset(a[1..]) == multiset(a) - multiset([a[0]]);
    assert multiset(b[1..]) == multiset(b) - multiset([b[0]]);
  }

  /** The declared deck holds each of the six faces exactly twice and nothing else. */
  lemma AnimalsArePairs()
    ensures forall a :: multiset(Animals)[a] == (if a in AnimalNames then 2 else 0)
  {
    DeckContents();
    PairCounts();
  }

  // Animals restated as a multiset literal: the solver counts a literal faster
  // than the multiset of a twelve-element sequence.
  const AnimalPairs: multiset<string> :=
    multiset{"bird", "bird", "cat", "cat", "elephant", "elephant",
             "horse", "horse", "lion", "lion", "squirrel", "squirrel"}

  lemma DeckContents()
    ensures multiset(Animals) == AnimalPairs
  {
  }

  lemma PairCounts()
    ensures forall a :: AnimalPairs[a] == (if a in AnimalNames then 2 else 0)
  {
  }

  /**
   * Shuffling only reorders: any rearrangement of the declared deck still has
   * twelve cards with each face exactly twice.
   */
  lemma ShuffledDeckIsPairs(swaps: seq<(nat, nat)>)
    ensures |ApplySwaps(Animals, swaps)| == CardCount
    ensures forall a :: multiset(ApplySwaps(Animals, swaps))[a] == (if a in AnimalNames then 2 else 0)
  {
    AnimalsArePairs();
  }
}
