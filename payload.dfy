/**
 * The callback data of the inline buttons: what `review` and `start` put
 * on a button (`ankibot/bot.py` lines 48, 121, 123) and how `callback`
 * takes it apart (lines 73-97).
 *
 * `DecodeAsWritten` follows the source: split on every `"::"`, the tag is
 * part 1, the index is the last part, the answer to show is part 2. An
 * answer that ends in a colon or contains `"::"` breaks that reading (see
 * `AsWrittenLosesIndex` and `AsWrittenCutsAnswer`). `Decode` is the
 * corrected reading, which takes the index after the last `"::"` and the
 * answer between the tag and that separator; it inverts the encoding for
 * every answer.
 */
module Payload {
  import opened Wrappers
  import opened Text

  function CorrectPayload(index: int): string {
    "answer::correct::" + IntToString(index)
  }

  function IncorrectPayload(answer: string, index: int): string {
    "answer::incorrect::" + answer + "::" + IntToString(index)
  }

  function ImportPayload(deck: string): (data: string)
    ensures StartsWith(data, "import_") && data[7..] == deck
  {
    "import_" + deck
  }

  datatype Answer = Correct(index: int) | Incorrect(shown: string, index: int)

  datatype Fault =
    | BadIndex        // int() of the index text raised ValueError
    | MissingAnswer   // no answer text where an incorrect payload needs one

  datatype Command = ImportDeck(name: string) | Answered(answer: Result<Answer, Fault>) | Ignored

  /** The payload tags are clean `"::"`-fields. */
  lemma TagFields()
    ensures Field("answer") && Field("correct") && Field("incorrect")
  {
    ColonFree("answer");
    ColonFree("correct");
    ColonFree("incorrect");
  }

  lemma AnswerSplit(data: string)
    requires StartsWith(data, "answer::")
    ensures Split(data, "::") == ["answer"] + Split(data[8..], "::")
  {
    assert data == "answer" + "::" + data[8..];
    TagFields();
    SplitField("answer", data[8..]);
  }

  /** `call.data.split("import_")[1]`. */
  function ImportName(data: string): (name: string)
    requires StartsWith(data, "import_")
    ensures StartsWith(data[7..], name)
    ensures Free(data[7..], "import_") ==> name == data[7..]
  {
    SplitLeading(data, "import_");
    SplitHead(data[7..], "import_");
    Split(data, "import_")[1]
  }

  /** `parts[1]` of `call.data.split("::")`. */
  function Tag(data: string): (tag: string)
    requires StartsWith(data, "answer::")
    ensures StartsWith(data[8..], tag)
    ensures Free(data[8..], "::") ==> tag == data[8..]
  {
    AnswerSplit(data);
    SplitHead(data[8..], "::");
    Split(data, "::")[1]
  }

  /** Lines 88-97 as written: index from the last part, answer from part 2. */
  function AnswerAsWritten(data: string): Result<Answer, Fault>
    requires StartsWith(data, "answer::")
  {
    AnswerSplit(data);
    var parts := Split(data, "::");
    match ParseInt(Last(parts))
    case None => Failure(BadIndex)
    case Some(index) =>
      if parts[1] == "correct" then Success(Correct(index))
      else if |parts| < 3 then Failure(MissingAnswer)
      else Success(Incorrect(parts[2], index))
  }

  /** The dispatch of `callback` on the callback data, as written. */
  function DecodeAsWritten(data: string): Command {
    if StartsWith(data, "import_") then ImportDeck(ImportName(data))
    else if StartsWith(data, "answer::") then Answered(AnswerAsWritten(data))
    else Ignored
  }

  /** Position of the last `"::"` of an answer payload. */
  function LastSeparator(data: string): (k: nat)
    requires StartsWith(data, "answer::")
    ensures 6 <= k && OccursAt(data, "::", k)
    ensures forall j :: k < j ==> !OccursAt(data, "::", j)
  {
    assert data[6..8] == data[..8][6..8] == "::";
    assert OccursAt(data, "::", 6);
    FindLast(data, "::", |data| - 2).value
  }

  /** Corrected reading of an answer payload: the index follows the last `"::"`. */
  function AnswerFields(data: string): Result<Answer, Fault>
    requires StartsWith(data, "answer::")
  {
    var tag := Tag(data);
    var last := LastSeparator(data);
    match ParseInt(data[last + 2..])
    case None => Failure(BadIndex)
    case Some(index) =>
      if tag == "correct" then Success(Correct(index))
      else
        var start := |"answer::"| + |tag| + 2;
        if start <= last then Success(Incorrect(data[start..last], index))
        else Failure(MissingAnswer)
  }

  /** The dispatch of `callback` with the corrected answer reading. */
  function Decode(data: string): Command {
    if StartsWith(data, "import_") then ImportDeck(ImportName(data))
    else if StartsWith(data, "answer::") then Answered(AnswerFields(data))
    else Ignored
  }

  // ---------------------------------------------------------------------
  // Round trips

  /** A deck name without `"import_"` in it comes back from its import button. */
  lemma ImportRoundTrip(name: string)
    requires Free(name, "import_")
    ensures Decode(ImportPayload(name)) == ImportDeck(name)
    ensures DecodeAsWritten(ImportPayload(name)) == ImportDeck(name)
  {
    var data := ImportPayload(name);
    SplitLeading(data, "import_");
    assert data[7..] == name;
    SplitWhole(name, "import_");
  }

  lemma CorrectShape(index: int)
    ensures CorrectPayload(index) == "answer" + "::" + ("correct" + "::" + IntToString(index))
    ensures CorrectPayload(index) == "answer::correct" + "::" + IntToString(index)
    ensures StartsWith(CorrectPayload(index), "answer::") && CorrectPayload(index)[0] != 'i'
  {
    var d := IntToString(index);
    assert "answer::correct::" == "answer::correct" + "::";
    assert "answer::correct" == "answer" + "::" + "correct";
    assert CorrectPayload(index)[..8] == "answer::";
  }

  lemma IncorrectShape(answer: string, index: int)
    ensures IncorrectPayload(answer, index) == "answer" + "::" + ("incorrect" + "::" + (answer + "::" + IntToString(index)))
    ensures IncorrectPayload(answer, index) == ("answer::incorrect::" + answer) + "::" + IntToString(index)
    ensures StartsWith(IncorrectPayload(answer, index), "answer::") && IncorrectPayload(answer, index)[0] != 'i'
  {
    var d := IntToString(index);
    assert "answer::incorrect::" == "answer::incorrect" + "::";
    assert "answer::incorrect" == "answer" + "::" + "incorrect";
    assert IncorrectPayload(answer, index)[..8] == "answer::";
  }

  /** A `"::"`-split of two clean fields and a tail. */
  lemma SplitTwo(a: string, b: string, c: string)
    requires Field(a) && Field(b)
    ensures Split(a + "::" + (b + "::" + c), "::") == [a] + ([b] + Split(c, "::"))
  {
    SplitField(a, b + "::" + c);
    SplitField(b, c);
  }

  lemma NotImport(data: string)
    requires StartsWith(data, "answer::")
    ensures !StartsWith(data, "import_")
  {
    assert data[..8][0] == 'a';
  }

  lemma CorrectFields(index: int)
    ensures var parts := Split(CorrectPayload(index), "::");
      |parts| == 3 && parts[1] == "correct" && Last(parts) == IntToString(index)
    ensures LastSeparator(CorrectPayload(index)) == 15
    ensures CorrectPayload(index)[17..] == IntToString(index)
  {
    var d := IntToString(index);
    CorrectShape(index);
    TagFields();
    SplitTwo("answer", "correct", d);
    ColonFree(d);
    SplitWhole(d, "::");
    FindLastBefore("answer::correct", d);
  }

  lemma IncorrectSplit(answer: string, index: int)
    ensures Split(IncorrectPayload(answer, index), "::")
         == ["answer"] + (["incorrect"] + Split(answer + "::" + IntToString(index), "::"))
  {
    var t := answer + "::" + IntToString(index);
    assert IncorrectPayload(answer, index) == "answer" + "::" + ("incorrect" + "::" + t) by {
      IncorrectShape(answer, index);
    }
    TagFields();
    SplitTwo("answer", "incorrect", t);
  }

  lemma IncorrectSlices(answer: string, index: int)
    ensures LastSeparator(IncorrectPayload(answer, index)) == 19 + |answer|
    ensures IncorrectPayload(answer, index)[21 + |answer|..] == IntToString(index)
    ensures IncorrectPayload(answer, index)[19..19 + |answer|] == answer
  {
    var x, d := "answer::incorrect::" + answer, IntToString(index);
    var data := x + "::" + d;
    assert IncorrectPayload(answer, index) == data;
    FindLastBefore(x, d);
    assert data[|x| + 2..] == d;
    assert data[19..19 + |answer|] == x[19..] == answer;
  }

  lemma IncorrectFields(answer: string, index: int)
    ensures var parts := Split(IncorrectPayload(answer, index), "::");
      parts == ["answer"] + (["incorrect"] + Split(answer + "::" + IntToString(index), "::"))
    ensures LastSeparator(IncorrectPayload(answer, index)) == 19 + |answer|
    ensures IncorrectPayload(answer, index)[21 + |answer|..] == IntToString(index)
    ensures IncorrectPayload(answer, index)[19..19 + |answer|] == answer
  {
    IncorrectSplit(answer, index);
    IncorrectSlices(answer, index);
  }

  /** The 'correct' button decodes to its index, as written and corrected alike. */
  lemma CorrectRoundTrip(index: int)
    ensures Decode(CorrectPayload(index)) == Answered(Success(Correct(index)))
    ensures DecodeAsWritten(CorrectPayload(index)) == Answered(Success(Correct(index)))
  {
    CorrectShape(index);
    NotImport(CorrectPayload(index));
    CorrectFields(index);
    IntRoundTrip(index);
  }

  /** The corrected reading inverts every 'incorrect' button, whatever the answer text. */
  lemma IncorrectRoundTrip(answer: string, index: int)
    ensures Decode(IncorrectPayload(answer, index)) == Answered(Success(Incorrect(answer, index)))
  {
    IncorrectShape(answer, index);
    NotImport(IncorrectPayload(answer, index));
    IncorrectFields(answer, index);
    IntRoundTrip(index);
  }

  /** The callback takes its 'correct' branch (line 92), whatever index it read. */
  predicate ReadAsCorrect(c: Command) {
    c.Answered? && c.answer.Success? && c.answer.value.Correct?
  }

  /**
   * As written, an 'incorrect' button is an answer that is never read as
   * correct on any item, whatever the answer text; it is either an
   * incorrect answer or unreadable.
   */
  lemma AsWrittenNeverCorrect(answer: string, index: int)
    ensures var c := DecodeAsWritten(IncorrectPayload(answer, index));
      c.Answered? && (c.answer.Success? ==> c.answer.value.Incorrect?)
    ensures !ReadAsCorrect(DecodeAsWritten(IncorrectPayload(answer, index)))
  {
    IncorrectShape(answer, index);
    NotImport(IncorrectPayload(answer, index));
    IncorrectSplit(answer, index);
  }

  /**
   * As written, the tag and index of an 'incorrect' button come back
   * whenever the answer does not end in a colon, and the shown answer too
   * when it has no `"::"` in it.
   */
  lemma AsWrittenIncorrect(answer: string, index: int)
    requires answer == [] || answer[|answer| - 1] != ':'
    ensures
      var c := DecodeAsWritten(IncorrectPayload(answer, index));
      && c.Answered? && c.answer.Success?
      && c.answer.value.Incorrect? && c.answer.value.index == index
      && (Free(answer, "::") ==> c.answer.value.shown == answer)
  {
    var parts := Split(IncorrectPayload(answer, index), "::");
    IncorrectShape(answer, index);
    NotImport(IncorrectPayload(answer, index));
    IncorrectParts(answer, index);
    IntRoundTrip(index);
    assert ParseInt(Last(parts)) == Some(index);
  }

  lemma IncorrectParts(answer: string, index: int)
    requires answer == [] || answer[|answer| - 1] != ':'
    ensures var parts := Split(IncorrectPayload(answer, index), "::");
      && |parts| >= 3 && parts[1] == "incorrect"
      && Last(parts) == IntToString(index)
      && (Free(answer, "::") ==> parts[2] == answer)
  {
    var d := IntToString(index);
    var tail := Split(answer + "::" + d, "::");
    IncorrectSplit(answer, index);
    ThreeParts("answer", "incorrect", tail);
    SplitLast(answer, d);
    if Free(answer, "::") {
      SplitField(answer, d);
    }
  }

  /** Positions of a list of parts made of two heads and a non-empty tail. */
  lemma ThreeParts<T>(x: T, y: T, tail: seq<T>)
    requires |tail| >= 1
    ensures var p := [x] + ([y] + tail);
      && |p| >= 3 && p[1] == y && p[2] == tail[0] && Last(p) == Last(tail)
  {
  }

  // ---------------------------------------------------------------------
  // The two ways the as-written reading goes wrong

  lemma ColonThenFree(d: string)
    requires NoColon(d)
    ensures Free(":" + d, "::")
  {
    var t := ":" + d;
    forall j | 0 <= j <= |t| ensures !OccursAt(t, "::", j) {
      if j + 2 <= |t| {
        assert t[j..j + 2][1] == d[j];
      }
    }
  }

  lemma ColonEndSplit(x: string, d: string)
    requires Field(x) && NoColon(d)
    ensures Split((x + ":") + "::" + d, "::") == [x] + [":" + d]
  {
    assert (x + ":") + "::" + d == x + "::" + (":" + d);
    SplitField(x, ":" + d);
    ColonThenFree(d);
    SplitWhole(":" + d, "::");
  }

  lemma ColonDigitsNotInt(d: string)
    requires IsWord(d) && NoColon(d)
    ensures ParseInt(":" + d) == None
  {
    var t := ":" + d;
    assert StripLeft(t) == t;
    assert t[|t| - 1] == d[|d| - 1];
    assert StripRight(t) == t;
  }

  /**
   * An answer that ends in a colon, such as `x:`, swallows the first colon
   * of the separator: the last part becomes `:5`, `int()` raises and the
   * answer is never recorded.
   */
  lemma AsWrittenLosesIndex(x: string, index: int)
    requires Field(x)
    ensures DecodeAsWritten(IncorrectPayload(x + ":", index)) == Answered(Failure(BadIndex))
  {
    var d := IntToString(index);
    IncorrectShape(x + ":", index);
    NotImport(IncorrectPayload(x + ":", index));
    IncorrectSplit(x + ":", index);
    ColonEndSplit(x, d);
    ColonDigitsNotInt(d);
  }

  lemma CutSplit(a: string, b: string, d: string)
    requires Field(a) && Field(b) && NoColon(d)
    ensures Split((a + "::" + b) + "::" + d, "::") == [a] + ([b] + [d])
  {
    var t := b + "::" + d;
    assert (a + "::" + b) + "::" + d == a + "::" + t;
    assert Split(t, "::") == [b] + [d] by {
      ColonFree(d);
      SplitWhole(d, "::");
      SplitField(b, d);
    }
    SplitField(a, t);
  }

  /** An answer that contains `"::"`, such as `a::b`, is shown cut short as `a`. */
  lemma AsWrittenCutsAnswer(a: string, b: string, index: int)
    requires Field(a) && Field(b)
    ensures DecodeAsWritten(IncorrectPayload(a + "::" + b, index)) == Answered(Success(Incorrect(a, index)))
  {
    var data := IncorrectPayload(a + "::" + b, index);
    var parts := Split(data, "::");
    IncorrectShape(a + "::" + b, index);
    NotImport(data);
    CutParts(a, b, index);
    IntRoundTrip(index);
    assert ParseInt(Last(parts)) == Some(index);
  }

  lemma CutParts(a: string, b: string, index: int)
    requires Field(a) && Field(b)
    ensures var parts := Split(IncorrectPayload(a + "::" + b, index), "::");
      && |parts| >= 3 && parts[1] == "incorrect" && parts[2] == a
      && Last(parts) == IntToString(index)
  {
    var d := IntToString(index);
    IncorrectSplit(a + "::" + b, index);
    CutSplit(a, b, d);
    ThreeParts("answer", "incorrect", [a] + ([b] + [d]));
  }
}
