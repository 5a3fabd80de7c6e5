/**
 * The answer branch of `callback`, `ankibot/bot.py` lines 84-105: read the
 * button's payload, move the item's weight by one, choose the reply and
 * save the weights.
 *
 * The session's weight array is passed in directly; the file system is a
 * `Store`. The payload is read with the corrected `Payload.AnswerFields`,
 * which agrees with the source's reading on every answer that neither
 * ends in a colon nor contains `"::"` (`Payload.AsWrittenIncorrect`).
 */
module Callback {
  import opened Wrappers
  import opened Text
  import opened Cards
  import opened Payload
  import opened Probability
  import Review

  /** Why an answer callback stops before replying. */
  datatype Stop =
    | Unreadable(fault: Fault)   // ValueError or IndexError while reading the payload
    | OutOfRange(index: int)     // IndexError of `p[index]`

  /** The text sent back (lines 93 and 98). */
  function Response(a: Answer): (text: string)
    ensures a.Correct? ==> text == "Correct!"
    ensures a.Incorrect? ==> text == "Correct answer: " + a.shown
  {
    match a
    case Correct(_) => "Correct!"
    case Incorrect(shown, _) => "Correct answer: " + shown
  }

  /**
   * Handle the callback data `data` of user `userId` on the deck with
   * digest `digest`. On success `p` has moved by one at the answered item,
   * the reply is chosen by the answer, and the store holds the new weights
   * under the user's file, which a later load reads back whatever the deck
   * in use; when the payload cannot be read or the index is out of range,
   * the handler stops with nothing changed.
   */
  method OnAnswer(p: array<int>, data: string, userId: int, digest: string, store: Store)
    returns (r: Result<string, Stop>, saved: Store)
    requires StartsWith(data, "answer::")
    modifies p
    ensures AnswerFields(data).Failure? ==>
      r == Failure(Unreadable(AnswerFields(data).error)) && p[..] == old(p[..]) && saved == store
    ensures AnswerFields(data).Success? && !Indexable(AnswerFields(data).value.index, p.Length) ==>
      r == Failure(OutOfRange(AnswerFields(data).value.index)) && p[..] == old(p[..]) && saved == store
    ensures AnswerFields(data).Success? && Indexable(AnswerFields(data).value.index, p.Length) ==>
      var a := AnswerFields(data).value;
      && r == Success(Response(a))
      && p[..] == Apply(old(p[..]), Position(a.index, p.Length), a.Correct?)
      && saved == Save(store, userId, digest, p[..])
    ensures r.Success? ==> forall deck: Deck :: Load(saved, userId, digest, deck) == Some(p[..])
  {
    var fields := AnswerFields(data);
    if fields.Failure? {
      return Failure(Unreadable(fields.error)), store;
    }
    var a := fields.value;
    var ok := UpdateWeight(p, a.index, a.Correct?);
    if !ok {
      return Failure(OutOfRange(a.index)), store;
    }
    r := Success(Response(a));
    saved := Save(store, userId, digest, p[..]);
    forall deck: Deck ensures Load(saved, userId, digest, deck) == Some(p[..]) {
      SaveLoad(store, userId, digest, p[..], deck);
    }
  }

  /** The two replies never coincide, whatever answer is shown. */
  lemma ResponsesDiffer(i: int, shown: string, j: int)
    ensures Response(Correct(i)) != Response(Incorrect(shown, j))
  {
    assert Response(Correct(i))[7] == '!';
    assert Response(Incorrect(shown, j))[7] == ' ';
  }

  /**
   * Pressing a button of the review keyboard reaches the answer branch.
   * With the corrected reading it always reads back the item asked, and
   * counts as correct exactly when the button's label is the card's
   * answer. The reading as written also takes its correct branch exactly
   * then, on any item, and reads back the item and answer of an incorrect button when
   * the answer neither holds `"::"` nor ends in a colon.
   */
  lemma PressButton(key: string, answer: string, index: int)
    ensures StartsWith(Review.KeyButton(key, answer, index).data, "answer::")
    ensures AnswerFields(Review.KeyButton(key, answer, index).data) ==
      Success(if key == answer then Correct(index) else Incorrect(answer, index))
    ensures AnswerAsWritten(Review.KeyButton(key, answer, index).data) == Success(Correct(index)) <==> key == answer
    ensures ReadAsCorrect(Answered(AnswerAsWritten(Review.KeyButton(key, answer, index).data))) <==> key == answer
    ensures key != answer && Field(answer) ==>
      AnswerAsWritten(Review.KeyButton(key, answer, index).data) == Success(Incorrect(answer, index))
  {
    var data := Review.KeyButton(key, answer, index).data;
    CorrectShape(index);
    IncorrectShape(answer, index);
    NotImport(data);
    Review.KeyButtonMeaning(key, answer, index);
  }
}
