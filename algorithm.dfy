/**
 * The sampler of `ankibot/algorithm.py`: choose a quiz item, draw
 * distractors from its group, put the correct answer in front, cut the
 * list to `n` options and shuffle them; and the check of a chosen option.
 *
 * The random source is not modelled. Its three uses become nondeterministic
 * choices that satisfy what numpy guarantees: an index of the deck, `n`
 * distinct rows of the item's group, and random swaps of a Fisher-Yates
 * shuffle.
 */
module Algorithm {
  import opened Wrappers
  import opened Cards

  // ---------------------------------------------------------------------
  // The weight transform `2.0 ** p`, normalised, stated exactly on reals

  /** `2^w` for any integer weight `w`, negative ones included. */
  function RelativeWeight(w: int): (r: real)
    ensures r > 0.0
    decreases if w < 0 then -w else w
  {
    if w == 0 then 1.0
    else if w > 0 then 2.0 * RelativeWeight(w - 1)
    else RelativeWeight(w + 1) / 2.0
  }

  /** One more unit of weight doubles the relative weight. */
  lemma WeightDoubles(w: int)
    ensures RelativeWeight(w + 1) == 2.0 * RelativeWeight(w)
  {
  }

  /** A larger weight always gives a larger relative weight. */
  lemma {:induction false} WeightMonotone(v: int, w: int)
    requires v < w
    ensures RelativeWeight(v) < RelativeWeight(w)
    decreases w - v
  {
    WeightDoubles(w - 1);
    if v < w - 1 {
      WeightMonotone(v, w - 1);
    }
  }

  /** `np.sum(2.0 ** p)`. */
  function TotalWeight(p: seq<int>): (t: real)
    ensures |p| > 0 ==> t > 0.0
    ensures t >= 0.0
  {
    if p == [] then 0.0 else RelativeWeight(p[0]) + TotalWeight(p[1..])
  }

  /** The probability with which item `i` is drawn. */
  function Probability(p: seq<int>, i: nat): real
    requires i < |p|
  {
    RelativeWeight(p[i]) / TotalWeight(p)
  }

  /** The sum of `RelativeWeight(p[k]) / t` over all `k`. */
  function ScaledSum(p: seq<int>, t: real): real
    requires t > 0.0
  {
    if p == [] then 0.0 else RelativeWeight(p[0]) / t + ScaledSum(p[1..], t)
  }

  lemma {:induction false} ScaledSumIsQuotient(p: seq<int>, t: real)
    requires t > 0.0
    ensures ScaledSum(p, t) == TotalWeight(p) / t
  {
    if p != [] {
      ScaledSumIsQuotient(p[1..], t);
      QuotientSum(RelativeWeight(p[0]), TotalWeight(p[1..]), t);
    }
  }

  lemma QuotientSum(a: real, b: real, t: real)
    requires t > 0.0
    ensures a / t + b / t == (a + b) / t
  {
  }

  /** Every item can be drawn. */
  lemma ProbabilityPositive(p: seq<int>, i: nat)
    requires i < |p|
    ensures Probability(p, i) > 0.0
  {
    QuotientLess(0.0, RelativeWeight(p[i]), TotalWeight(p));
  }

  /** The normalised weights sum to one. */
  lemma ProbabilitiesSumToOne(p: seq<int>)
    requires |p| > 0
    ensures ScaledSum(p, TotalWeight(p)) == 1.0
  {
    var t := TotalWeight(p);
    ScaledSumIsQuotient(p, t);
    QuotientSelf(t);
  }

  lemma QuotientSelf(t: real)
    requires t > 0.0
    ensures t / t == 1.0
  {
  }

  lemma QuotientLess(b: real, a: real, t: real)
    requires b < a && t > 0.0
    ensures b / t < a / t
  {
    var d := a / t - b / t;
    assert d * t == a - b;
  }

  /** An item with the larger weight is the more likely to be drawn. */
  lemma ProbabilityMonotone(p: seq<int>, i: nat, j: nat)
    requires i < |p| && j < |p|
    requires p[i] > p[j]
    ensures Probability(p, i) > Probability(p, j)
  {
    WeightMonotone(p[j], p[i]);
    QuotientLess(RelativeWeight(p[j]), RelativeWeight(p[i]), TotalWeight(p));
  }

  // ---------------------------------------------------------------------
  // The distractor pool and the draw from it

  /** Row numbers, from `from` on and in deck order, of the items whose group is `g`. */
  function GroupRowsFrom(deck: Deck, g: string, from: nat): (rows: seq<nat>)
    ensures forall k :: 0 <= k < |rows| ==> from <= rows[k] < |deck| && deck[rows[k]].group == g
    ensures forall k, l :: 0 <= k < l < |rows| ==> rows[k] < rows[l]
    ensures forall j :: from <= j < |deck| && deck[j].group == g ==> j in rows
    decreases |deck| - from
  {
    if from >= |deck| then []
    else if deck[from].group == g then [from] + GroupRowsFrom(deck, g, from + 1)
    else GroupRowsFrom(deck, g, from + 1)
  }

  /** The rows behind `df["answer"][df.group == g]`. */
  function GroupRows(deck: Deck, g: string): seq<nat> {
    GroupRowsFrom(deck, g, 0)
  }

  predicate Distinct(rows: seq<nat>) {
    forall k, l :: 0 <= k < l < |rows| ==> rows[k] != rows[l]
  }

  /**
   * What `np.random.choice(pool, size=n, replace=False)` may return, as
   * row numbers: `n` different rows of group `g`, in any order.
   */
  predicate IsSample(deck: Deck, g: string, rows: seq<nat>, n: nat) {
    && |rows| == n
    && Distinct(rows)
    && forall k :: 0 <= k < |rows| ==> rows[k] < |deck| && deck[rows[k]].group == g
  }

  /** The answers held by the given rows. */
  function AnswersOf(deck: Deck, rows: seq<nat>): seq<string>
    requires forall k :: 0 <= k < |rows| ==> rows[k] < |deck|
  {
    seq(|rows|, k requires 0 <= k < |rows| => deck[rows[k]].answer)
  }

  /** Some row of group `g` has answer `x`. */
  predicate GroupAnswer(deck: Deck, g: string, x: string) {
    exists j :: 0 <= j < |deck| && deck[j].group == g && deck[j].answer == x
  }

  /** A draw of `n` rows exists exactly when the group has at least `n` rows. */
  lemma SampleExists(deck: Deck, g: string, n: nat)
    requires n <= |GroupRows(deck, g)|
    ensures IsSample(deck, g, GroupRows(deck, g)[..n], n)
  {
  }

  lemma {:induction false} SampleFitsGroup(deck: Deck, g: string, rows: seq<nat>, n: nat)
    requires IsSample(deck, g, rows, n)
    ensures n <= |GroupRows(deck, g)|
  {
    var pool := GroupRows(deck, g);
    var s := set k | 0 <= k < |rows| :: rows[k];
    var t := set k | 0 <= k < |pool| :: pool[k];
    assert s <= t;
    SetOfDistinct(rows);
    SetOfDistinct(pool);
    assert |s| <= |t| by {
      SubsetCard(s, t);
    }
  }

  lemma SubsetCard(s: set<nat>, t: set<nat>)
    requires s <= t
    ensures |s| <= |t|
  {
    assert t == s + (t - s);
  }

  lemma {:induction false} SetOfDistinct(rows: seq<nat>)
    requires Distinct(rows)
    ensures |set k | 0 <= k < |rows| :: rows[k]| == |rows|
  {
    if rows != [] {
      var r := rows[1..];
      SetOfDistinct(r);
      var s := set k | 0 <= k < |rows| :: rows[k];
      var s' := set k | 0 <= k < |r| :: r[k];
      assert s == {rows[0]} + s' by {
        forall x | x in s ensures x in {rows[0]} + s' {
          var k :| 0 <= k < |rows| && rows[k] == x;
          if k > 0 {
            assert r[k - 1] == x;
          }
        }
      }
      assert rows[0] !in s';
    }
  }

  // ---------------------------------------------------------------------
  // Assembling the option list (lines 18-25)

  /** The list comprehension that drops every drawn entry equal to `a`. */
  function Without(s: seq<string>, a: string): (r: seq<string>)
    ensures multiset(r) == multiset(s)[a := 0]
    ensures |r| == |s| - multiset(s)[a]
  {
    if s == [] then []
    else
      assert s == [s[0]] + s[1..];
      if s[0] == a then Without(s[1..], a) else [s[0]] + Without(s[1..], a)
  }

  /** Python's `s[:n]`. */
  function Truncate<T>(s: seq<T>, n: nat): (r: seq<T>)
    ensures |r| == Min(n, |s|)
    ensures r == s[..|r|]
  {
    if n < |s| then s[..n] else s
  }

  function Min(a: int, b: int): int {
    if a < b then a else b
  }

  /**
   * `([answer] + [e for e in drawn if e != answer])[:n]`: at most `n`
   * options; the answer exactly once when `n >= 1`; every other option
   * one of the drawn entries.
   */
  function Assemble(answer: string, drawn: seq<string>, n: nat): (options: seq<string>)
    ensures |options| == Min(n, 1 + |drawn| - multiset(drawn)[answer])
    ensures |options| <= n
    ensures multiset(options)[answer] == if n >= 1 then 1 else 0
    ensures forall x :: x in options && x != answer ==> x in drawn
  {
    var rest := Without(drawn, answer);
    assert answer !in rest by {
      assert multiset(rest)[answer] == 0;
    }
    var all := [answer] + rest;
    if n == 0 then []
    else
      var r := Truncate(all, n);
      assert r == [answer] + Truncate(rest, n - 1);
      assert answer !in Truncate(rest, n - 1);
      forall x | x in r && x != answer ensures x in drawn {
        assert x in rest;
        assert x in multiset(rest);
      }
      r
  }

  // ---------------------------------------------------------------------
  // The shuffle and the whole draw

  /** `np.random.shuffle`: Fisher-Yates, each swap partner chosen freely. */
  method Shuffle(a: array<string>)
    modifies a
    ensures multiset(a[..]) == old(multiset(a[..]))
  {
    var i := a.Length;
    while i > 1
      invariant 0 <= i <= a.Length
      invariant multiset(a[..]) == old(multiset(a[..]))
    {
      var j :| 0 <= j < i;
      a[i - 1], a[j] := a[j], a[i - 1];
      i := i - 1;
    }
  }

  /** The list `s` copied into an array, shuffled there and read back. */
  method Shuffled(s: seq<string>) returns (r: seq<string>)
    ensures multiset(r) == multiset(s)
  {
    var a := new string[|s|](k requires 0 <= k < |s| => s[k]);
    assert a[..] == s;
    Shuffle(a);
    r := a[..];
  }

  datatype Quiz = Quiz(index: nat, choice: Item, options: seq<string>)

  datatype DrawError =
    | EmptyDeck                              // np.random.choice on an empty range
    | WeightCountMismatch                    // p and the deck differ in length
    | GroupTooSmall(index: nat, size: nat)   // fewer than n rows to draw without replacement

  /**
   * `get_options(df, p, n)`. The index is any row of the deck (every row has
   * a positive probability, see `ProbabilityPositive`); the draw is
   * any sample of `n` distinct rows of the item's group, returned in
   * `rows`; the options are a permutation of the assembled list.
   */
  method GetOptions(deck: Deck, p: Option<seq<int>>, n: nat)
    returns (r: Result<Quiz, DrawError>, ghost rows: seq<nat>)
    ensures |deck| == 0 ==> r == Failure(EmptyDeck)
    ensures |deck| > 0 && p.Some? && |p.value| != |deck| ==> r == Failure(WeightCountMismatch)
    ensures |deck| > 0 && (p.None? || |p.value| == |deck|) ==> r.Success? || r.error.GroupTooSmall?
    ensures r.Failure? && r.error.GroupTooSmall? ==>
      && r.error.index < |deck|
      && r.error.size == |GroupRows(deck, deck[r.error.index].group)| < n
    ensures r.Success? ==>
      var q := r.value;
      && q.index < |deck|
      && q.choice == deck[q.index]
      && IsSample(deck, q.choice.group, rows, n)
      && multiset(q.options) == multiset(Assemble(q.choice.answer, AnswersOf(deck, rows), n))
      && |q.options| <= n
      && multiset(q.options)[q.choice.answer] == (if n >= 1 then 1 else 0)
      && forall x :: x in q.options && x != q.choice.answer ==> GroupAnswer(deck, q.choice.group, x)
  {
    rows := [];
    if |deck| == 0 {
      return Failure(EmptyDeck), rows;
    }
    if p.Some? && |p.value| != |deck| {
      return Failure(WeightCountMismatch), rows;
    }
    var index :| 0 <= index < |deck|;
    var choice := deck[index];
    var pool := GroupRows(deck, choice.group);
    if |pool| < n {
      return Failure(GroupTooSmall(index, |pool|)), rows;
    }
    SampleExists(deck, choice.group, n);
    var drawn: seq<nat> :| IsSample(deck, choice.group, drawn, n);
    rows := drawn;
    assert IsSample(deck, choice.group, drawn, n);
    var assembled := Assemble(choice.answer, AnswersOf(deck, drawn), n);
    var options := Shuffled(assembled);
    ShuffledOptions(deck, choice.group, drawn, n, choice.answer, options);
    r := Success(Quiz(index, choice, options));
  }

  /** What every permutation of the assembled list keeps of it. */
  lemma ShuffledOptions(deck: Deck, g: string, rows: seq<nat>, n: nat, answer: string, options: seq<string>)
    requires IsSample(deck, g, rows, n)
    requires multiset(options) == multiset(Assemble(answer, AnswersOf(deck, rows), n))
    ensures |options| <= n
    ensures multiset(options)[answer] == if n >= 1 then 1 else 0
    ensures forall x :: x in options && x != answer ==> GroupAnswer(deck, g, x)
  {
    var assembled := Assemble(answer, AnswersOf(deck, rows), n);
    assert |options| == |multiset(assembled)| == |assembled|;
    DrawnFromGroup(deck, g, rows, n, answer);
    forall x | x in options && x != answer ensures GroupAnswer(deck, g, x) {
      assert x in multiset(options);
    }
  }

  /** Every assembled option other than the answer belongs to the item's group. */
  lemma DrawnFromGroup(deck: Deck, g: string, rows: seq<nat>, n: nat, answer: string)
    requires IsSample(deck, g, rows, n)
    ensures forall x :: x in multiset(Assemble(answer, AnswersOf(deck, rows), n)) && x != answer ==> GroupAnswer(deck, g, x)
  {
    var answers := AnswersOf(deck, rows);
    forall x | x in multiset(Assemble(answer, answers, n)) && x != answer
      ensures GroupAnswer(deck, g, x)
    {
      assert x in answers;
      var k :| 0 <= k < |answers| && answers[k] == x;
      assert deck[rows[k]].group == g && deck[rows[k]].answer == x;
    }
  }

  /**
   * `correct(options, choice, k)`: whether option `k` is the item's answer,
   * with Python's list indexing (a negative `k` counts from the end);
   * `None` stands for the IndexError of an index out of range.
   */
  function Correct(options: seq<string>, choice: Item, k: int): (r: Option<bool>)
    ensures r.None? <==> k < -|options| || |options| <= k
    ensures 0 <= k < |options| ==> r == Some(options[k] == choice.answer)
  {
    if 0 <= k < |options| then Some(options[k] == choice.answer)
    else if -|options| <= k < 0 then Some(options[|options| + k] == choice.answer)
    else None
  }

  lemma TwoPositions(s: seq<string>, i: nat, j: nat)
    requires i < j < |s|
    ensures multiset(s)[s[i]] >= if s[i] == s[j] then 2 else 1
  {
    assert s == s[..i] + [s[i]] + s[i + 1..j] + [s[j]] + s[j + 1..];
  }

  /**
   * When the answer occurs once in the options, exactly one position in
   * `0 .. |options| - 1` is judged correct, and every index outside the
   * list and its negative mirror fails.
   */
  lemma OneCorrectPosition(options: seq<string>, choice: Item)
    requires multiset(options)[choice.answer] == 1
    ensures exists j :: 0 <= j < |options| && Correct(options, choice, j) == Some(true)
    ensures forall k, l :: 0 <= k < |options| && 0 <= l < |options| && Correct(options, choice, k) == Some(true) && Correct(options, choice, l) == Some(true) ==> k == l
    ensures forall k :: k < -|options| || |options| <= k ==> Correct(options, choice, k).None?
    ensures forall k :: -|options| <= k < 0 ==> Correct(options, choice, k) == Correct(options, choice, k + |options|)
  {
    assert choice.answer in options;
    var j :| 0 <= j < |options| && options[j] == choice.answer;
    assert Correct(options, choice, j) == Some(true);
    forall k, l | 0 <= k < l < |options|
      ensures options[k] != choice.answer || options[l] != choice.answer
    {
      TwoPositions(options, k, l);
    }
  }
}
