/**
 The win tracker: the list of boxes still in play, and the win it declares
 when a removal leaves that list empty.

 `GameManager` is generic in the box type; the board instantiates it with
 its box class. `WinGame` is reduced to a counter of how often it has run.
 */
module Session {

  /**
   `s` without the first occurrence of `x`, the rest in their order; `s`
   itself when `x` does not occur (the semantics of removing from a list).
   */
  function RemoveFirst<T(==)>(s: seq<T>, x: T): (r: seq<T>)
    ensures x !in s ==> r == s
    ensures x in s ==> |r| == |s| - 1
  {
    if s == [] then []
    else if s[0] == x then s[1..]
    else [s[0]] + RemoveFirst(s[1..], x)
  }

  /** Removing `x` takes one copy of `x` out of the list, if there is one, and nothing else. */
  lemma {:induction false} RemoveFirstMultiset<T>(s: seq<T>, x: T)
    ensures multiset(RemoveFirst(s, x)) == multiset(s) - multiset{x}
  {
    if s != [] {
      assert s == [s[0]] + s[1..];
      if s[0] != x {
        RemoveFirstMultiset(s[1..], x);
      }
    }
  }

  /** Slicing `s` around position `i + 1` is slicing its tail around position `i`. */
  lemma TailSlices<T>(s: seq<T>, i: nat)
    requires i + 1 < |s|
    ensures s[..i + 1] == [s[0]] + s[1..][..i]
    ensures s[i + 2..] == s[1..][i + 1..]
  {
  }

  /** Removing `x` cuts out exactly the element at its first position `i`. */
  lemma {:induction false} RemoveFirstCutsFirstOccurrence<T>(s: seq<T>, x: T, i: nat)
    requires i < |s| && s[i] == x
    requires forall j :: 0 <= j < i ==> s[j] != x
    ensures RemoveFirst(s, x) == s[..i] + s[i + 1..]
  {
    if i == 0 {
      assert s[..0] + s[1..] == s[1..];
    } else {
      var tail := s[1..];
      assert s[0] != x;
      assert forall j :: 0 <= j < i - 1 ==> tail[j] == s[j + 1];
      RemoveFirstCutsFirstOccurrence(tail, x, i - 1);
      TailSlices(s, i - 1);
      assert RemoveFirst(s, x) == [s[0]] + (tail[..i - 1] + tail[i..]);
      assert [s[0]] + (tail[..i - 1] + tail[i..]) == ([s[0]] + tail[..i - 1]) + tail[i..];
    }
  }

  /**
   The list left after removing `xs` one call at a time, and the number of
   those calls that found the list empty afterwards (each one wins).
   */
  function Removals<T(==)>(s: seq<T>, xs: seq<T>): (r: (seq<T>, nat))
    decreases |xs|
  {
    if xs == [] then (s, 0)
    else
      var rest := RemoveFirst(s, xs[0]);
      var after := Removals(rest, xs[1..]);
      (after.0, after.1 + if rest == [] then 1 else 0)
  }

  class GameManager<T(==)> {
    /** The boxes still in play. */
    var boxes: seq<T>
    /** How many times the win has been declared. */
    var wins: nat

    constructor (boxes: seq<T>)
      ensures this.boxes == boxes && wins == 0
    {
      this.boxes := boxes;
      wins := 0;
    }

    /** Drops `box` from play and declares the win whenever no box is left. */
    method RemoveBox(box: T)
      modifies this
      ensures boxes == RemoveFirst(old(boxes), box)
      ensures wins == old(wins) + if boxes == [] then 1 else 0
      ensures (boxes, wins - old(wins)) == Removals(old(boxes), [box])
    {
      boxes := RemoveFirst(boxes, box);
      if |boxes| == 0 {
        WinGame();
      }
    }

    method WinGame()
      modifies this`wins
      ensures wins == old(wins) + 1
    {
      wins := wins + 1;
    }
  }

  /** Removing from a list that is already empty wins on every call. */
  lemma {:induction false} EmptyListWinsEveryCall<T>(xs: seq<T>)
    ensures Removals([], xs) == ([], |xs|)
    decreases |xs|
  {
    if xs != [] {
      EmptyListWinsEveryCall(xs[1..]);
    }
  }

  /** A series of calls splits at any point into the calls before and the calls after. */
  lemma {:induction false} RemovalsAppend<T>(s: seq<T>, xs: seq<T>, ys: seq<T>)
    ensures var first := Removals(s, xs);
            var second := Removals(first.0, ys);
            Removals(s, xs + ys) == (second.0, first.1 + second.1)
    decreases |xs|
  {
    if xs != [] {
      var rest := RemoveFirst(s, xs[0]);
      assert (xs + ys)[0] == xs[0];
      assert (xs + ys)[1..] == xs[1..] + ys;
      var whole := Removals(rest, xs[1..] + ys);
      assert Removals(s, xs + ys) == (whole.0, whole.1 + if rest == [] then 1 else 0);
      RemovalsAppend(rest, xs[1..], ys);
    } else {
      assert xs + ys == ys;
    }
  }

  /**
   Removing boxes that are all in play: each call shortens the list by one,
   and a win is declared only by the call that removes the last box.
   */
  lemma {:induction false} RemovingPresentBoxes<T>(s: seq<T>, xs: seq<T>)
    requires multiset(xs) <= multiset(s)
    ensures multiset(Removals(s, xs).0) == multiset(s) - multiset(xs)
    ensures |Removals(s, xs).0| == |s| - |xs|
    ensures Removals(s, xs).1 == if 0 < |xs| == |s| then 1 else 0
    decreases |xs|
  {
    if xs != [] {
      assert xs == [xs[0]] + xs[1..];
      assert multiset(xs) == multiset{xs[0]} + multiset(xs[1..]);
      assert xs[0] in multiset(s);
      var rest := RemoveFirst(s, xs[0]);
      RemoveFirstMultiset(s, xs[0]);
      RemovingPresentBoxes(rest, xs[1..]);
      assert |multiset(s)| == |s|;
      assert |multiset(xs)| == |xs|;
      assert |xs| <= |s| by {
        assert |multiset(xs)| <= |multiset(s)|;
      }
    }
  }

  lemma PrefixIsPresent<T>(s: seq<T>, order: seq<T>, k: nat)
    requires multiset(order) == multiset(s) && k <= |order|
    ensures multiset(order[..k]) <= multiset(s)
  {
    assert order == order[..k] + order[k..];
    assert multiset(order) == multiset(order[..k]) + multiset(order[k..]);
  }

  /**
   Starting with n boxes in play and removing each of them once, in any
   order, the win is declared first by the n-th removal, and every later
   call declares it again: the win is not once-only.
   */
  lemma WinOnLastRemovalAndEveryLaterOne<T>(s: seq<T>, order: seq<T>, later: seq<T>)
    requires multiset(order) == multiset(s) && s != []
    ensures forall k :: 0 <= k < |order| ==> Removals(s, order[..k]).1 == 0
    ensures Removals(s, order) == ([], 1)
    ensures Removals(s, order + later) == ([], 1 + |later|)
  {
    assert |order| == |s| by {
      assert |multiset(order)| == |order| && |multiset(s)| == |s|;
    }
    forall k | 0 <= k < |order|
      ensures Removals(s, order[..k]).1 == 0
    {
      PrefixIsPresent(s, order, k);
      RemovingPresentBoxes(s, order[..k]);
    }
    RemovingPresentBoxes(s, order);
    RemovalsAppend(s, order, later);
    EmptyListWinsEveryCall(later);
  }
}
