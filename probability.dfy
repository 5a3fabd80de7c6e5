/**
 * Persistence and update of a user's per-item weights, `ankibot/bot.py`
 * lines 54-68 and 92-100.
 *
 * The file system is a map from path to file contents; a path that is not
 * a key is a file that does not exist. The deck fingerprint
 * (`sha1(df.to_json())`) is not computed: the store functions take its
 * hexadecimal digest as an argument.
 */
module Probability {
  import opened Wrappers
  import opened Text
  import opened Cards

  type Store = map<string, string>

  /** `get_probability_file(user_id, df)`, given the hex digest of the deck. */
  function ProbabilityFile(userId: int, digest: string): (path: string)
    ensures StartsWith(path, "user/") && path[|path| - 4..] == ".dat"
  {
    "user/" + IntToString(userId) + "_" + digest + ".dat"
  }

  /**
   * Digests of one length (SHA-1 hex digests are 40 characters) never let
   * two different (user, deck) pairs share a weight file.
   */
  lemma KeyInjective(u1: int, d1: string, u2: int, d2: string)
    requires |d1| == |d2|
    requires ProbabilityFile(u1, d1) == ProbabilityFile(u2, d2)
    ensures u1 == u2 && d1 == d2
  {
    var a1, a2 := "user/" + IntToString(u1) + "_", "user/" + IntToString(u2) + "_";
    var f := ProbabilityFile(u1, d1);
    assert f == a1 + d1 + ".dat" == a2 + d2 + ".dat";
    assert |a1| == |a2|;
    assert a1 == f[..|a1|] == a2;
    assert d1 == f[|a1|..|a1| + |d1|] == d2;
    assert IntToString(u1) == a1[5..|a1| - 1] == IntToString(u2);
    IntToStringInjective(u1, u2);
  }

  /** `map(str, p)`. */
  function IntStrings(p: seq<int>): (ws: seq<string>)
    ensures |ws| == |p|
    ensures forall k :: 0 <= k < |ws| ==> IsWord(ws[k])
  {
    seq(|p|, k requires 0 <= k < |p| => IntToString(p[k]))
  }

  /** What `save_probability` writes: `" ".join(map(str, p))`. */
  function Format(p: seq<int>): string {
    Join(IntStrings(p), " ")
  }

  /** `list(map(int, words))`; `None` is the ValueError of a word that is not an integer. */
  function ParseAll(ws: seq<string>): (r: Option<seq<int>>)
    ensures r.Some? ==> |r.value| == |ws|
  {
    if ws == [] then Some([])
    else match (ParseInt(ws[0]), ParseAll(ws[1..]))
      case (Some(x), Some(xs)) => Some([x] + xs)
      case _ => None
  }

  /** What `load_probability` makes of an existing file: `map(int, text.split())`. */
  function Parse(text: string): Option<seq<int>> {
    ParseAll(Words(text))
  }

  lemma {:induction false} ParseAllStrings(p: seq<int>)
    ensures ParseAll(IntStrings(p)) == Some(p)
  {
    if p != [] {
      IntRoundTrip(p[0]);
      assert IntStrings(p)[1..] == IntStrings(p[1..]);
      ParseAllStrings(p[1..]);
      assert p == [p[0]] + p[1..];
    }
  }

  /** Reading back what was written gives the same weights, negative ones included. */
  lemma FormatRoundTrip(p: seq<int>)
    ensures Parse(Format(p)) == Some(p)
  {
    WordsOfJoin(IntStrings(p));
    ParseAllStrings(p);
  }

  /** `np.ones(len(df)).astype(int)`. */
  function Ones(n: nat): (r: seq<int>)
    ensures |r| == n && forall k :: 0 <= k < n ==> r[k] == 1
  {
    seq(n, _ => 1)
  }

  /**
   * `load_probability(user_id, df)`: the parsed file when it exists, all
   * ones for every item of the deck when it does not. The length of a
   * stored vector is not compared with the deck.
   */
  function Load(store: Store, userId: int, digest: string, deck: Deck): (r: Option<seq<int>>)
    ensures ProbabilityFile(userId, digest) !in store ==>
      r.Some? && |r.value| == |deck| && forall i :: 0 <= i < |deck| ==> r.value[i] == 1
  {
    var path := ProbabilityFile(userId, digest);
    if path in store then Parse(store[path]) else Some(Ones(|deck|))
  }

  /** `save_probability(user_id, df, p)`: overwrite the file of this user and deck. */
  function Save(store: Store, userId: int, digest: string, p: seq<int>): (s: Store)
    ensures s.Keys == store.Keys + {ProbabilityFile(userId, digest)}
  {
    store[ProbabilityFile(userId, digest) := Format(p)]
  }

  /** Saving and then loading for the same user and deck gives back the saved weights. */
  lemma SaveLoad(store: Store, userId: int, digest: string, p: seq<int>, deck: Deck)
    ensures Load(Save(store, userId, digest, p), userId, digest, deck) == Some(p)
  {
    FormatRoundTrip(p);
  }

  /** Saving for one user and deck leaves what every other user and deck loads unchanged. */
  lemma SaveIsolated(store: Store, u1: int, d1: string, p: seq<int>, u2: int, d2: string, deck: Deck)
    requires |d1| == |d2|
    requires u1 != u2 || d1 != d2
    ensures Load(Save(store, u1, d1, p), u2, d2, deck) == Load(store, u2, d2, deck)
  {
    if ProbabilityFile(u1, d1) == ProbabilityFile(u2, d2) {
      KeyInjective(u1, d1, u2, d2);
    }
  }

  // ---------------------------------------------------------------------
  // The weight update of the answer callback

  /** The weights after one answer on item `k`: one less when correct, one more when not. */
  function Apply(w: seq<int>, k: nat, correct: bool): (r: seq<int>)
    requires k < |w|
    ensures |r| == |w|
    ensures r[k] == if correct then w[k] - 1 else w[k] + 1
    ensures forall j :: 0 <= j < |w| && j != k ==> r[j] == w[j]
  {
    w[k := w[k] + (if correct then -1 else 1)]
  }

  /** An index numpy accepts for an array of length `n`. */
  predicate Indexable(index: int, n: nat) {
    0 - n <= index < n
  }

  /** The element a numpy index `index` selects in an array of length `n`, when in range. */
  function Position(index: int, n: nat): int {
    if index < 0 then index + n else index
  }

  /**
   * `p[index] -= 1` (correct) or `p[index] += 1` (incorrect) on the
   * session's array. An index outside `-len(p) .. len(p) - 1` is numpy's
   * IndexError: `ok` is false and nothing changes.
   */
  method UpdateWeight(p: array<int>, index: int, correct: bool) returns (ok: bool)
    modifies p
    ensures ok <==> Indexable(index, p.Length)
    ensures ok ==> 0 <= Position(index, p.Length) < p.Length
    ensures ok ==> p[..] == Apply(old(p[..]), Position(index, p.Length), correct)
    ensures ok ==>
      var k := Position(index, p.Length);
      && p[k] == old(p[k]) + (if correct then -1 else 1)
      && forall j :: 0 <= j < p.Length && j != k ==> p[j] == old(p[j])
    ensures !ok ==> p[..] == old(p[..])
  {
    ok := -p.Length <= index < p.Length;
    if ok {
      var k := Position(index, p.Length);
      p[k] := p[k] + (if correct then -1 else 1);
    }
  }

  datatype Event = Event(index: nat, correct: bool)

  predicate InRange(events: seq<Event>, n: nat) {
    forall e :: e in events ==> e.index < n
  }

  /** The weights after a sequence of answers, applied in order. */
  function Replay(w: seq<int>, events: seq<Event>): (r: seq<int>)
    requires InRange(events, |w|)
    ensures |r| == |w|
    decreases |events|
  {
    if events == [] then w
    else Replay(Apply(w, events[0].index, events[0].correct), events[1..])
  }

  /** Misses minus hits on item `i`. */
  function Tally(events: seq<Event>, i: nat): int {
    if events == [] then 0
    else (if events[0].index == i then (if events[0].correct then -1 else 1) else 0) + Tally(events[1..], i)
  }

  /**
   * After any history of answers each weight is its start value plus the
   * misses minus the hits on that item: so from the all-ones start a
   * weight is `1 + misses - hits`, unbounded in both directions.
   */
  lemma {:induction false} ReplayTally(w: seq<int>, events: seq<Event>, i: nat)
    requires InRange(events, |w|)
    requires i < |w|
    ensures Replay(w, events)[i] == w[i] + Tally(events, i)
    decreases |events|
  {
    if events != [] {
      var w' := Apply(w, events[0].index, events[0].correct);
      assert InRange(events[1..], |w'|) by {
        forall e | e in events[1..] ensures e.index < |w'| {
          assert e in events;
        }
      }
      ReplayTally(w', events[1..], i);
    }
  }
}
