/**
  Scoring: the final score a finished game reports, and the update of the
  stored score history (newest first, at most ten entries) and of the
  all-time high score.
 */
module Scores {

  /** The number of past scores the store keeps. */
  const HistoryLength: nat := 10

  /** A finished game's score: the running score plus a time bonus on a win. */
  function FinalScore(running: int, won: bool, elapsed: int): (final: int)
    ensures !won ==> final == running
    ensures won ==> final - running == 1000 - elapsed
    ensures final > running <==> won && elapsed < 1000
  {
    if won then running + 1000 - elapsed else running
  }

  function Max(a: int, b: int): int
  {
    if a >= b then a else b
  }

  /** The largest element of a non-empty sequence. */
  function MaxOf(s: seq<int>): (m: int)
    requires |s| > 0
    ensures m in s
    ensures forall k :: 0 <= k < |s| ==> s[k] <= m
  {
    if |s| == 1 then s[0] else Max(s[0], MaxOf(s[1..]))
  }

  /** The first `n` elements of `s`, or all of them when there are fewer. */
  function Take(s: seq<int>, n: nat): seq<int>
  {
    if |s| <= n then s else s[..n]
  }

  /** What the score store holds: the recent scores, newest first, and the high score. */
  datatype Store = Store(history: seq<int>, high: int)

  /** No recorded score exceeds the high score. */
  ghost predicate Consistent(store: Store)
  {
    forall k :: 0 <= k < |store.history| ==> store.history[k] <= store.high
  }

  /**
    Records a new score: it goes in front, only the ten most recent scores
    are kept, and the high score becomes the largest of the old high score
    and the kept scores.
   */
  function SaveScores(store: Store, newScore: int): (saved: Store)
    ensures |saved.history| == if |store.history| < HistoryLength then |store.history| + 1 else HistoryLength
    ensures saved.history[0] == newScore
    ensures saved.history[1..] == store.history[..|saved.history| - 1]
    ensures saved.high >= store.high && saved.high >= newScore
    ensures Consistent(saved)
    ensures saved.high == store.high || saved.high in saved.history
  {
    var scores := [newScore] + store.history;
    var kept := Take(scores, HistoryLength);
    Store(kept, Max(MaxOf(kept), store.high))
  }

  /** On a consistent store the new high score is the larger of the old one and the new score. */
  lemma SaveScoresHigh(store: Store, newScore: int)
    requires Consistent(store)
    ensures SaveScores(store, newScore).high == Max(store.high, newScore)
  {
    var kept := SaveScores(store, newScore).history;
    var m := MaxOf(kept);
    var k :| 0 <= k < |kept| && kept[k] == m;
    if k > 0 {
      assert kept[k] == store.history[k - 1];
    }
  }

  /** Saves the scores of several games, oldest first. */
  function SaveAll(store: Store, scores: seq<int>): Store
    decreases |scores|
  {
    if |scores| == 0 then store else SaveAll(SaveScores(store, scores[0]), scores[1..])
  }

  function Reversed(s: seq<int>): (r: seq<int>)
    ensures |r| == |s|
  {
    if |s| == 0 then [] else Reversed(s[1..]) + [s[0]]
  }

  /** After any number of saves the high score is the largest score ever seen. */
  lemma {:induction false} SaveAllHigh(store: Store, scores: seq<int>)
    requires Consistent(store)
    requires |scores| > 0
    ensures SaveAll(store, scores).high == Max(store.high, MaxOf(scores))
    decreases |scores|
  {
    var next := SaveScores(store, scores[0]);
    SaveScoresHigh(store, scores[0]);
    if |scores| > 1 {
      SaveAllHigh(next, scores[1..]);
    }
  }

  lemma TakeOfTake(a: seq<int>, b: seq<int>, n: nat)
    ensures Take(a + Take(b, n), n) == Take(a + b, n)
  {
    if |b| > n {
      if |a| >= n {
        assert (a + b[..n])[..n] == a[..n] == (a + b)[..n];
      } else {
        assert (a + b[..n])[..n] == (a + b)[..n];
      }
    }
  }

  lemma SaveScoresHistory(store: Store, x: int)
    ensures SaveScores(store, x).history == Take([x] + store.history, HistoryLength)
  {
  }

  lemma ReversedCons(x: int, rest: seq<int>, tail: seq<int>)
    ensures Reversed([x] + rest) + tail == Reversed(rest) + ([x] + tail)
  {
    assert ([x] + rest)[1..] == rest;
  }

  /** After any number of saves the history is the ten most recent scores, newest first. */
  lemma {:induction false} SaveAllHistory(store: Store, scores: seq<int>)
    requires |store.history| <= HistoryLength
    ensures SaveAll(store, scores).history == Take(Reversed(scores) + store.history, HistoryLength)
    decreases |scores|
  {
    if |scores| > 0 {
      var x, rest := scores[0], scores[1..];
      var next := SaveScores(store, x);
      assert scores == [x] + rest;
      calc {
        SaveAll(store, scores).history;
        SaveAll(next, rest).history;
        { SaveAllHistory(next, rest); }
        Take(Reversed(rest) + next.history, HistoryLength);
        { SaveScoresHistory(store, x); }
        Take(Reversed(rest) + Take([x] + store.history, HistoryLength), HistoryLength);
        { TakeOfTake(Reversed(rest), [x] + store.history, HistoryLength); }
        Take(Reversed(rest) + ([x] + store.history), HistoryLength);
        { ReversedCons(x, rest, store.history); }
        Take(Reversed(scores) + store.history, HistoryLength);
      }
    }
  }
}
