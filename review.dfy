/**
 * `review(user_id)`, `ankibot/bot.py` lines 109-138: draw a question with
 * four options, label one button per option plus "I don't know", give each
 * button its callback payload and lay the buttons out two to a row.
 *
 * Sending the message is left out; `Review` returns the question text, the
 * drawn item and options, and the keyboard it would send.
 */
module Review {
  import opened Wrappers
  import opened Text
  import opened Cards
  import opened Algorithm
  import opened Payload

  /** An inline keyboard button: its label and its callback data. */
  datatype Button = Button(text: string, data: string)

  const IDontKnow: string := "I don't know"

  /** The button for label `key` when the card's answer is `answer` (lines 120-127). */
  function KeyButton(key: string, answer: string, index: int): (b: Button)
    ensures b.text == key
  {
    Button(key, if key == answer then CorrectPayload(index) else IncorrectPayload(answer, index))
  }

  /** The buttons of `keys`, in order, before they are put into rows. */
  function Buttons(keys: seq<string>, answer: string, index: int): (bs: seq<Button>)
    ensures |bs| == |keys|
  {
    if keys == [] then []
    else Buttons(keys[..|keys| - 1], answer, index) + [KeyButton(keys[|keys| - 1], answer, index)]
  }

  /** Button `k` is the button of key `k`. */
  lemma {:induction false} ButtonAt(keys: seq<string>, answer: string, index: int, k: nat)
    requires k < |keys|
    ensures Buttons(keys, answer, index)[k] == KeyButton(keys[k], answer, index)
  {
    if k < |keys| - 1 {
      ButtonAt(keys[..|keys| - 1], answer, index, k);
    }
  }

  /** The buttons of one more key are the buttons so far and the key's own. */
  lemma ButtonsSnoc(keys: seq<string>, answer: string, index: int, i: nat)
    requires i < |keys|
    ensures Buttons(keys[..i + 1], answer, index) == Buttons(keys[..i], answer, index) + [KeyButton(keys[i], answer, index)]
  {
    assert keys[..i + 1][..i] == keys[..i];
  }

  /** The buttons of a keyboard, row after row. */
  function Flatten(rows: seq<seq<Button>>): seq<Button> {
    if rows == [] then [] else Flatten(rows[..|rows| - 1]) + rows[|rows| - 1]
  }

  /** Every row holds one or two buttons, and only the last row may hold one. */
  predicate Paired(rows: seq<seq<Button>>) {
    forall i :: 0 <= i < |rows| ==> 1 <= |rows[i]| <= 2 && (i < |rows| - 1 ==> |rows[i]| == 2)
  }

  /** A button whose payload the corrected reading takes as a correct answer on item `index`. */
  predicate CorrectButton(b: Button, index: int) {
    Decode(b.data) == Answered(Success(Correct(index)))
  }

  /** A button whose payload the callback, as written, takes as a correct answer on item `index`. */
  predicate CorrectAsWritten(b: Button, index: int) {
    DecodeAsWritten(b.data) == Answered(Success(Correct(index)))
  }

  /** A button whose payload the callback, as written, takes as a correct answer on some item. */
  predicate TaggedCorrect(b: Button) {
    ReadAsCorrect(DecodeAsWritten(b.data))
  }

  /**
   * What the callback makes of a button: the correct answer when its label
   * is the card's answer, otherwise an incorrect answer that shows the
   * card's answer. Either way it names the item that was asked.
   */
  lemma KeyButtonMeaning(key: string, answer: string, index: int)
    ensures KeyButton(key, answer, index).text == key
    ensures Decode(KeyButton(key, answer, index).data) ==
      Answered(Success(if key == answer then Correct(index) else Incorrect(answer, index)))
    ensures CorrectButton(KeyButton(key, answer, index), index) <==> key == answer
    ensures CorrectAsWritten(KeyButton(key, answer, index), index) <==> key == answer
    ensures TaggedCorrect(KeyButton(key, answer, index)) <==> key == answer
    ensures key != answer && Field(answer) ==>
      DecodeAsWritten(KeyButton(key, answer, index).data) == Answered(Success(Incorrect(answer, index)))
  {
    if key == answer {
      CorrectRoundTrip(index);
    } else {
      IncorrectRoundTrip(answer, index);
      AsWrittenNeverCorrect(answer, index);
      if Field(answer) {
        AsWrittenIncorrect(answer, index);
      }
    }
  }

  /** Button `k` reports a correct answer exactly when its label is the answer. */
  lemma ButtonsCorrect(keys: seq<string>, answer: string, index: int)
    ensures forall k :: 0 <= k < |keys| ==>
      (CorrectButton(Buttons(keys, answer, index)[k], index) <==> keys[k] == answer)
    ensures forall k :: 0 <= k < |keys| ==>
      (CorrectAsWritten(Buttons(keys, answer, index)[k], index) <==> keys[k] == answer)
    ensures forall k :: 0 <= k < |keys| ==>
      (TaggedCorrect(Buttons(keys, answer, index)[k]) <==> keys[k] == answer)
  {
    forall k | 0 <= k < |keys|
      ensures CorrectButton(Buttons(keys, answer, index)[k], index) <==> keys[k] == answer
      ensures CorrectAsWritten(Buttons(keys, answer, index)[k], index) <==> keys[k] == answer
      ensures TaggedCorrect(Buttons(keys, answer, index)[k]) <==> keys[k] == answer
    {
      ButtonAt(keys, answer, index, k);
      KeyButtonMeaning(keys[k], answer, index);
    }
  }

  /** With the answer among the labels exactly once, exactly one button is correct. */
  lemma OneCorrectButton(keys: seq<string>, answer: string, index: int)
    requires multiset(keys)[answer] == 1
    ensures OneCorrect(Buttons(keys, answer, index), index)
  {
    ButtonsCorrect(keys, answer, index);
    var k := AnswerPosition(keys, answer);
    assert CorrectButton(Buttons(keys, answer, index)[k], index);
  }

  /** The one position of a label that occurs once. */
  lemma AnswerPosition(keys: seq<string>, answer: string) returns (k: nat)
    requires multiset(keys)[answer] == 1
    ensures k < |keys| && keys[k] == answer
    ensures forall l :: 0 <= l < |keys| && keys[l] == answer ==> l == k
  {
    assert answer in multiset(keys);
    k :| 0 <= k < |keys| && keys[k] == answer;
    forall l | 0 <= l < |keys| && keys[l] == answer ensures l == k {
      if l < k {
        TwoPositions(keys, l, k);
      } else if k < l {
        TwoPositions(keys, k, l);
      }
    }
  }

  lemma FlattenSnoc(rows: seq<seq<Button>>, row: seq<Button>)
    ensures Flatten(rows + [row]) == Flatten(rows) + row
  {
    assert (rows + [row])[..|rows|] == rows;
  }

  /**
   * Loop state of the button loop after `ii` of `total` buttons: the closed
   * rows and the open row hold the buttons made so far, in order; before
   * the end every closed row holds two, and at the end the open row is
   * empty.
   */
  predicate Chunked(keyboard: seq<seq<Button>>, row: seq<Button>, done: seq<Button>, ii: nat, total: nat) {
    && Flatten(keyboard) + row == done
    && |done| == ii <= total
    && (ii < total ==> |row| == ii % 2 && |keyboard| == ii / 2 && forall i :: 0 <= i < |keyboard| ==> |keyboard[i]| == 2)
    && (ii == total ==> row == [] && Paired(keyboard) && |keyboard| == (ii + 1) / 2)
  }

  /** One turn of the loop: append the button, and close the row after an odd position or the last button. */
  lemma ChunkStep(keyboard: seq<seq<Button>>, row: seq<Button>, done: seq<Button>, b: Button, ii: nat, total: nat)
    requires ii < total && Chunked(keyboard, row, done, ii, total)
    ensures ii % 2 == 1 || ii == total - 1 ==> Chunked(keyboard + [row + [b]], [], done + [b], ii + 1, total)
    ensures !(ii % 2 == 1 || ii == total - 1) ==> Chunked(keyboard, row + [b], done + [b], ii + 1, total)
  {
    FlattenSnoc(keyboard, row + [b]);
  }

  /**
   * The button loop of lines 117-131: a button per key of
   * `options + ["I don't know"]`, a row closed after every second button
   * and after the last one.
   */
  method Layout(options: seq<string>, answer: string, index: int) returns (keyboard: seq<seq<Button>>)
    ensures Flatten(keyboard) == Buttons(options + [IDontKnow], answer, index)
    ensures Paired(keyboard)
    ensures |keyboard| == (|options| + 2) / 2
  {
    var keys := options + [IDontKnow];
    keyboard := [];
    var row: seq<Button> := [];
    var ii := 0;
    while ii < |keys|
      invariant 0 <= ii <= |keys|
      invariant Chunked(keyboard, row, Buttons(keys[..ii], answer, index), ii, |keys|)
    {
      var button := KeyButton(keys[ii], answer, index);
      ButtonsSnoc(keys, answer, index, ii);
      ChunkStep(keyboard, row, Buttons(keys[..ii], answer, index), button, ii, |keys|);
      row := row + [button];
      if ii % 2 == 1 || ii == |options| {
        keyboard := keyboard + [row];
        row := [];
      }
      ii := ii + 1;
    }
    assert keys[..ii] == keys;
  }

  /**
   * Exactly one of the buttons reports a correct answer on item `index`,
   * under the callback as written and under the corrected reading alike;
   * as written, no other button is read as correct on any item.
   */
  predicate OneCorrect(flat: seq<Button>, index: int) {
    && (exists k :: 0 <= k < |flat| && CorrectButton(flat[k], index) && CorrectAsWritten(flat[k], index))
    && (forall k, l ::
          (0 <= k < |flat| && 0 <= l < |flat| &&
           CorrectButton(flat[k], index) && CorrectButton(flat[l], index)) ==> k == l)
    && (forall k, l ::
          (0 <= k < |flat| && 0 <= l < |flat| &&
           TaggedCorrect(flat[k]) && TaggedCorrect(flat[l])) ==> k == l)
  }

  /**
   * The keyboard of options that hold the answer once: two to five buttons
   * with "I don't know" last, and, unless the answer is itself
   * "I don't know", one correct button.
   */
  lemma KeyboardFacts(options: seq<string>, answer: string, index: int, keyboard: seq<seq<Button>>)
    requires Flatten(keyboard) == Buttons(options + [IDontKnow], answer, index)
    requires |options| <= 4 && multiset(options)[answer] == 1
    ensures 2 <= |Flatten(keyboard)| <= 5
    ensures Flatten(keyboard)[|Flatten(keyboard)| - 1].text == IDontKnow
    ensures answer != IDontKnow ==> OneCorrect(Flatten(keyboard), index)
  {
    var keys := options + [IDontKnow];
    assert answer in multiset(options);
    ButtonAt(keys, answer, index, |keys| - 1);
    if answer != IDontKnow {
      assert multiset(keys) == multiset(options) + multiset{IDontKnow};
      OneCorrectButton(keys, answer, index);
    }
  }

  /** The message `review` sends: the question and its keyboard, with the item and options drawn. */
  datatype Prompt = Prompt(question: string, index: nat, options: seq<string>, keyboard: seq<seq<Button>>)

  /**
   * `review(user_id)` on the session's deck and weights: the draw of
   * `get_options(df, p, n=4)`, and a keyboard whose buttons are those of the
   * drawn options and "I don't know", in order, on which, unless a card's
   * answer is literally "I don't know", exactly one button reports a
   * correct answer.
   */
  method Review(deck: Deck, p: seq<int>) returns (r: Result<Prompt, DrawError>, ghost rows: seq<nat>)
    ensures |deck| == 0 ==> r == Failure(EmptyDeck)
    ensures |deck| > 0 && |p| != |deck| ==> r == Failure(WeightCountMismatch)
    ensures |deck| > 0 && |p| == |deck| ==>
      r.Success? ||
      (r.error.GroupTooSmall? && r.error.index < |deck| &&
       r.error.size == |GroupRows(deck, deck[r.error.index].group)| < 4)
    ensures r.Success? ==> r.value.index < |deck|
    ensures r.Success? ==>
      var q := r.value;
      var answer := deck[q.index].answer;
      && q.question == deck[q.index].question
      && IsSample(deck, deck[q.index].group, rows, 4)
      && multiset(q.options) == multiset(Assemble(answer, AnswersOf(deck, rows), 4))
      && |q.options| <= 4
      && multiset(q.options)[answer] == 1
      && (forall x :: x in q.options && x != answer ==> GroupAnswer(deck, deck[q.index].group, x))
      && Flatten(q.keyboard) == Buttons(q.options + [IDontKnow], answer, q.index)
      && Paired(q.keyboard)
      && 2 <= |Flatten(q.keyboard)| <= 5
      && Flatten(q.keyboard)[|Flatten(q.keyboard)| - 1].text == IDontKnow
    ensures r.Success? && deck[r.value.index].answer != IDontKnow ==>
      OneCorrect(Flatten(r.value.keyboard), r.value.index)
  {
    var drawn;
    drawn, rows := GetOptions(deck, Some(p), 4);
    if drawn.Failure? {
      return Failure(drawn.error), rows;
    }
    var quiz := drawn.value;
    var keyboard := Layout(quiz.options, quiz.choice.answer, quiz.index);
    KeyboardFacts(quiz.options, quiz.choice.answer, quiz.index, keyboard);
    r := Success(Prompt(quiz.choice.question, quiz.index, quiz.options, keyboard));
  }
}
