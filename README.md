# ankibot quiz engine in Dafny

A model of the quiz engine inside the `ankibot` Telegram bot. The bot asks
multiple-choice questions from a deck of `(question, answer, group)` cards.
It keeps one integer weight per card and user, and draws a card with
probability proportional to `2 ** weight`. The wrong options come from cards
of the same group. A correct answer lowers the card's weight by one and a
wrong answer raises it by one. The weights are stored as a text file of
space-separated integers.

Modules, one per file:

- `Wrappers` (`wrappers.dfy`): `Option` and `Result`.
- `Cards` (`cards.dfy`): a card (`Item`) and a deck (a sequence of cards).
- `Text` (`text.dfy`): the Python string operations the bot relies on.
  These are `str(int)`, `int(str)`, `str.split()`, `" ".join`,
  `str.split(sep)` and `str.startswith`. The module proves their round trips.
- `Algorithm` (`algorithm.dfy`): `get_options` and `correct` from
  `ankibot/algorithm.py`. `2 ** p` and its normalisation are done on exact
  reals. The random index, the random draw from the group and the shuffle
  are nondeterministic choices under the constraints numpy guarantees.
  The shuffle works in place on an array.
- `Probability` (`probability.dfy`): the weight-file path, `load_probability`,
  `save_probability`, and the in-place `±1` update of the weight array.
  The file system is a map from path to contents.
- `Payload` (`payload.dfy`): the callback data of the buttons and how the
  callback reads it. It has the reading as written and a corrected reading
  (see Findings).
- `Review` (`review.dfy`): `review`, which builds a button per option plus
  "I don't know" and groups the buttons two to a row.
- `Callback` (`callback.dfy`): the answer branch of `callback`. It reads the
  payload, updates the weight, picks the reply and saves.

## Model

| member | source | states |
|---|---|---|
| Algorithm.RelativeWeight | ankibot/algorithm.py:14 | `2.0 ** w` on exact reals: always positive, doubling per step (`Algorithm.WeightDoubles`) and strictly increasing in `w` (`Algorithm.WeightMonotone`) |
| Algorithm.TotalWeight | ankibot/algorithm.py:15 | `np.sum(2.0 ** p)`: never negative and positive for a non-empty vector, so the normalisation never divides by zero |
| Algorithm.Probability | ankibot/algorithm.py:15-16 | the normalised weight `p[i] / np.sum(p)` with which row `i` is drawn; positive (`Algorithm.ProbabilityPositive`), summing to one (`Algorithm.ProbabilitiesSumToOne`) and ordered like the weights (`Algorithm.ProbabilityMonotone`) |
| Algorithm.WeightMonotone | ankibot/algorithm.py:14 | a larger integer weight gives a strictly larger relative weight `2 ** w` |
| Algorithm.ProbabilityPositive | ankibot/algorithm.py:13-16 | after normalisation every card has a positive probability of being drawn |
| Algorithm.ProbabilitiesSumToOne | ankibot/algorithm.py:14-15 | the normalised weights of a non-empty deck sum to exactly one |
| Algorithm.ProbabilityMonotone | ankibot/algorithm.py:13-16 | a card with the larger weight is strictly more likely to be drawn |
| Algorithm.GroupRowsFrom | ankibot/algorithm.py:21 | the pool `df.group == g` is exactly the rows of group `g`, in deck order, each once |
| Algorithm.IsSample | ankibot/algorithm.py:20-22 | the draws `np.random.choice(group_answers, size=n, replace=False)` can make: `n` distinct rows, all of the card's group; such a draw exists exactly when the group has `n` rows (`Algorithm.SampleExists`, `Algorithm.SampleFitsGroup`) |
| Algorithm.SampleFitsGroup | ankibot/algorithm.py:19-22 | a draw of `n` distinct rows of one group exists only if the group has at least `n` rows |
| Algorithm.SampleExists | ankibot/algorithm.py:19-22 | when the group has at least `n` rows, a draw of `n` distinct group rows exists |
| Algorithm.Without | ankibot/algorithm.py:18-24 | the filter removes every copy of the card's answer and keeps all other drawn answers with their counts |
| Algorithm.Truncate | ankibot/algorithm.py:25 | Python's `s[:n]`: the prefix of `s` of length `min(n, len(s))` |
| Algorithm.Assemble | ankibot/algorithm.py:25 | prepend and truncate: at most `n` options, exactly `min(n, 1 + drawn entries other than the answer)`; the answer exactly once when `n >= 1`; every other option is a drawn answer |
| Algorithm.Shuffle | ankibot/algorithm.py:26 | the in-place shuffle only reorders the array: same multiset |
| Algorithm.Shuffled | ankibot/algorithm.py:26 | the options list shuffled through an array comes back with the same multiset |
| Algorithm.GetOptions | ankibot/algorithm.py:12-27 | an empty deck, a weight vector of the wrong length, and a group smaller than `n` each fail; otherwise the index is a row of the deck, the choice is that row, the draw is `n` distinct rows of its group, the options are a permutation of the assembled list, at most `n` long, with the answer exactly once and every other option the answer of a card of the same group |
| Algorithm.Correct | ankibot/algorithm.py:30-31 | `options[answer] == choice["answer"]` with Python list indexing: an IndexError exactly when the index is outside `-len(options) .. len(options) - 1`, otherwise whether that option is the answer |
| Algorithm.OneCorrectPosition | ankibot/algorithm.py:30-31 | with the answer once in the options, exactly one position is judged correct; a negative index `k` judges the same option as `k + len(options)`; an index outside both ranges is an IndexError |
| Text.IntToString | ankibot/bot.py:55 | `str(x)`: a non-empty token without white space or colons; read back by `Text.IntRoundTrip` |
| Text.ParseInt | ankibot/bot.py:61 | `int(s)`: optional sign and decimal digits between white space, `None` for the ValueError; it inverts `str` (`Text.IntRoundTrip`) |
| Text.Words | ankibot/bot.py:61 | `str.split()`: every part is a non-empty token without white space; inverts the space join (`Text.WordsOfJoin`) |
| Text.Join | ankibot/bot.py:68 | `sep.join(ws)`; inverted by `Text.Words` for spaces (`Text.WordsOfJoin`) and inverts `Text.Split` (`Text.SplitJoin`) |
| Text.Split | ankibot/bot.py:88 | `split(sep)` always gives at least one part |
| Text.SplitJoin | ankibot/bot.py:88 | joining the parts of `split(sep)` with `sep` gives back the string, so the split loses nothing |
| Text.IntRoundTrip | ankibot/bot.py:61 | `int(str(x)) == x` for every integer, negatives included |
| Text.IntToStringInjective | ankibot/bot.py:55 | different user ids give different decimal texts |
| Text.WordsOfJoin | ankibot/bot.py:61 | `" ".join(words).split()` gives back the words when none is empty or holds white space |
| Text.SplitField | ankibot/bot.py:88 | splitting `a + "::" + rest` gives `a` and then the parts of `rest`, when `a` holds no `"::"` and does not end in a colon |
| Text.SplitLast | ankibot/bot.py:90 | the last part of `a + "::" + d` is `d` when `a` does not end in a colon and `d` holds no colon |
| Probability.ProbabilityFile | ankibot/bot.py:54-55 | the path `user/{user_id}_{digest}.dat`: starts with `user/` and ends with `.dat`; injective by `Probability.KeyInjective` |
| Probability.KeyInjective | ankibot/bot.py:54-55 | for digests of one length, equal weight-file paths mean equal user ids and equal digests |
| Probability.IntStrings | ankibot/bot.py:68 | `map(str, p)`: one white-space-free token per entry; read back by `Probability.FormatRoundTrip` |
| Probability.ParseAll | ankibot/bot.py:61 | a successful `map(int, ...)` gives one integer per word |
| Probability.Format | ankibot/bot.py:68 | `" ".join(map(str, p))`; read back by `Probability.Parse` (`Probability.FormatRoundTrip`) |
| Probability.Parse | ankibot/bot.py:61 | `list(map(int, text.split()))`, `None` for a ValueError; inverts `Probability.Format` (`Probability.FormatRoundTrip`) |
| Probability.FormatRoundTrip | ankibot/bot.py:61 | parsing the text that `save_probability` writes gives back the same vector, negative entries included |
| Probability.Ones | ankibot/bot.py:63 | `np.ones(len(df)).astype(int)`: `n` entries, each 1 |
| Probability.Load | ankibot/bot.py:57-63 | without a file for this user and deck the weights are `len(df)` ones |
| Probability.Save | ankibot/bot.py:65-68 | saving adds or overwrites exactly the file of this user and deck |
| Probability.SaveLoad | ankibot/bot.py:57-68 | loading after saving gives back the saved weights |
| Probability.SaveIsolated | ankibot/bot.py:54-68 | saving for one user and deck does not change what any other user or deck loads |
| Probability.Apply | ankibot/bot.py:95-100 | the weights after one answer: same length, one less at the card when correct and one more when not, every other entry unchanged |
| Probability.UpdateWeight | ankibot/bot.py:92-100 | a correct answer lowers `p[index]` by exactly one and a wrong one raises it by one; numpy's negative indices are honoured; length and all other entries are unchanged; an out-of-range index changes nothing |
| Probability.ReplayTally | ankibot/bot.py:92-100 | after any history of answers a weight is its start value plus misses minus hits on that card |
| Payload.CorrectPayload | ankibot/bot.py:121 | `answer::correct::{index}`; read back by both readers (`Payload.CorrectRoundTrip`) |
| Payload.IncorrectPayload | ankibot/bot.py:123 | `answer::incorrect::{answer}::{index}`; read back by the corrected reader for every answer (`Payload.IncorrectRoundTrip`) and by the reader as written under conditions (`Payload.AsWrittenIncorrect`) |
| Payload.ImportPayload | ankibot/bot.py:48 | `f"import_{deck}"`: starts with `import_` followed by the deck name; read back by `Payload.ImportRoundTrip` |
| Payload.ImportName | ankibot/bot.py:74 | `call.data.split("import_")[1]`: a prefix of the text after the leading `import_`, all of it when that text holds no further `import_` |
| Payload.Tag | ankibot/bot.py:89 | `parts[1]`: a prefix of the text after `answer::`, all of it when that text holds no `"::"`; `correct` and `incorrect` for the two button payloads (`Payload.CorrectFields`, `Payload.IncorrectSplit`) |
| Payload.AnswerAsWritten | ankibot/bot.py:88-97 | lines 88-97 as written: split on every `"::"`, index from the last part (BadIndex on a ValueError), tag from part 1, answer from part 2 (MissingAnswer on an IndexError); its behaviour is stated by `Payload.CorrectRoundTrip`, `Payload.AsWrittenIncorrect`, `Payload.AsWrittenNeverCorrect`, `Payload.AsWrittenLosesIndex` and `Payload.AsWrittenCutsAnswer` |
| Payload.DecodeAsWritten | ankibot/bot.py:73-97 | the dispatch of `callback` on `import_` and `answer::` prefixes, as written |
| Payload.AnswerFields | ankibot/bot.py:88-97 | the corrected reader: the index after the last `"::"`, the answer between the tag and that separator; it inverts both payloads (`Payload.CorrectRoundTrip`, `Payload.IncorrectRoundTrip`) |
| Payload.Decode | ankibot/bot.py:73-97 | the dispatch of `callback` with the corrected reader |
| Payload.LastSeparator | ankibot/bot.py:88-90 | the position of the last `"::"` of an answer payload |
| Payload.ImportRoundTrip | ankibot/bot.py:48 | an import button's data gives back the deck name, in both readings, when the name holds no `"import_"` |
| Payload.CorrectFields | ankibot/bot.py:88-92 | the correct payload splits into 3 parts: `answer`, `correct`, the index text |
| Payload.CorrectRoundTrip | ankibot/bot.py:121 | a correct button's data reads back as a correct answer on its index, in both readings |
| Payload.IncorrectRoundTrip | ankibot/bot.py:123 | with the corrected reading, an incorrect button's data reads back as its index and the full answer text, for every answer |
| Payload.AsWrittenIncorrect | ankibot/bot.py:88-97 | as written, an incorrect payload gives back tag and index when the answer does not end in a colon, and also the answer when it holds no `"::"` |
| Payload.AsWrittenNeverCorrect | ankibot/bot.py:88-97 | as written, an incorrect payload is read as an incorrect answer or fails, and never takes the correct branch of line 92 on any index, whatever the answer text |
| Payload.AsWrittenLosesIndex | ankibot/bot.py:90 | as written, an answer ending in a colon makes `int(parts[-1])` fail |
| Payload.AsWrittenCutsAnswer | ankibot/bot.py:97 | as written, an answer `a::b` is shown as `a` |
| Review.KeyButton | ankibot/bot.py:120-127 | the button of one key: its label is the key, its data the correct payload when the key is the answer and the incorrect payload otherwise; meaning stated by `Review.KeyButtonMeaning` |
| Review.KeyButtonMeaning | ankibot/bot.py:119-127 | with the corrected reading a button is read as correct on the card asked exactly when its label is the card's answer; as written, it takes the correct branch, on any index, exactly when its label is the answer, and then on the card asked; with the corrected reading any other button, "I don't know" included, reads back as incorrect with the card's answer and index; the reading as written does so when the answer neither holds `"::"` nor ends in a colon |
| Review.OneCorrectButton | ankibot/bot.py:119-127 | with the answer once among the labels, exactly one button is read as correct on the card asked under both readers, and as written no other button takes the correct branch on any index |
| Review.ChunkStep | ankibot/bot.py:128-131 | one loop turn keeps the layout invariant: a row closes after an odd position or after the last button |
| Review.Layout | ankibot/bot.py:117-131 | the rows, joined, are the buttons of `options + ["I don't know"]` in order; every row has one or two buttons and only the last may have one; there are `ceil((len(options) + 1) / 2)` rows |
| Review.KeyboardFacts | ankibot/bot.py:116-131 | a keyboard of four or fewer options has two to five buttons, ends with "I don't know", and, unless the answer is "I don't know", exactly one button that both readers take as correct on the card asked, with no other button taking the correct branch on any index as written |
| Review.Review | ankibot/bot.py:109-138 | an empty deck and a weight vector of the wrong length fail; otherwise it succeeds unless the drawn card's group has fewer than 4 rows; on success the question is that of the drawn card, the options satisfy everything `get_options` promises for `n = 4`, the keyboard's buttons are those of the options and "I don't know" in order, the layout is paired, and, unless the answer is "I don't know", exactly one button is read as correct on the card asked under both readers while as written no other button takes the correct branch on any index |
| Callback.Response | ankibot/bot.py:93-98 | the reply is "Correct!" for a correct answer and "Correct answer: " followed by the shown answer otherwise |
| Callback.ResponsesDiffer | ankibot/bot.py:93-98 | the two replies never coincide, whatever answer is shown |
| Callback.PressButton | ankibot/bot.py:84-97 | every review button reaches the answer branch; under both readers it is read as correct on the card asked exactly when its label is the answer, and as written it takes the correct branch on any index only then; the corrected reading gives back the card asked for every button, the reading as written for incorrect buttons only when the answer neither holds `"::"` nor ends in a colon |
| Callback.OnAnswer | ankibot/bot.py:84-105 | an unreadable payload or an out-of-range index stops the handler with nothing changed; otherwise the weight moves by one at the card, the reply matches the answer, and the store holds the new weights, which load back unchanged whatever the deck in use |

## Left out

- `RelativeWeight` is `2 ** w` on exact reals. Floating-point rounding is not modelled. Neither is overflow: `np.sum(2.0 ** p)` becomes infinite once the total passes the largest float64, for example with two weights of 1023, and a single weight above 1023 is already infinite. Then `p / inf` is all zeros (or NaN) and `np.random.choice` raises. Underflow is not modelled either: `2.0 ** w` is `0.0` for `w <= -1075`, and a normalised weight rounds to zero once it is about 1075 below the largest. In that range `Algorithm.ProbabilityPositive` and `Algorithm.ProbabilityMonotone` hold of the exact-real model, not of the float program.
- Algorithm.GetOptions: the drawn index may be any row of the deck. That row `i` is drawn with probability `Probability(p, i)` is not captured, because the model has no random source. The weights only decide the length check.
- Algorithm.Shuffle: states that the result is a permutation, not that every permutation is equally likely.
- `load_data` (YAML and pandas) is not part of this model. The deck is a sequence of cards.
- The deck fingerprint `sha1(df.to_json())` is not computed. The path functions take its hexadecimal digest as a parameter.
- File existence, reads and writes are a map from path to contents. Operating-system failures are not modelled.
- The Telegram transport is not modelled. That covers the bot object, the `/start` deck listing, `send_message`, `answer_callback_query`, polling, and the 64-byte limit on callback data.
- Reading the token and logging are not modelled.
- The `user_data` session dictionary is not modelled. Neither is its "Please import a deck (again)" check, nor the `review` call at the end of every callback. The session's weight array is passed in directly.
- The import branch of `callback` is modelled only as far as its payload (`Payload.ImportRoundTrip`). Loading the deck and the reply texts are transport.
- Text.ParseInt: accepts an optional sign and ASCII digits between white space. It does not accept the underscores or non-ASCII digits that Python's `int()` also takes. `save_probability` never writes those.
- Probability.UpdateWeight: weights are unbounded integers. The 64-bit wrap-around of the numpy array is not modelled.
- `n` is a natural number. A negative `n` for `get_options` is not modelled, and the bot always passes 4.
- Callback.OnAnswer: reads the payload with the corrected `Payload.AnswerFields` (see Findings). The as-written reading is `Payload.DecodeAsWritten`.
- Review.KeyButtonMeaning: that an incorrect button gives back the card's answer and index is proved for the reading as written only when the answer neither holds `"::"` nor ends in a colon, because otherwise it does not (see Findings).
- Callback.PressButton: as for `Review.KeyButtonMeaning`, the reading as written gives back an incorrect button's card and answer only when the answer neither holds `"::"` nor ends in a colon.
- Review.Review: the one-correct-button clause covers both readers (as written: no other button takes the correct branch on any index), but which card and answer an incorrect button reports is stated only through `Review.KeyButtonMeaning`, with the same limit on the reading as written.

## Source behaviour the model keeps

- A group with fewer than `n` cards makes `np.random.choice(..., replace=False)` raise. The model fails with `GroupTooSmall`; it does not clamp `n`.
- `load_probability` does not compare the length of a stored weight vector with the deck. `Load` returns the vector as stored, and the draw then fails with `WeightCountMismatch`, as numpy does when `p` and the range differ in length.
- The option count is not `min(n, group size)`: drawn cards of the group that share the answer are filtered out. `Algorithm.Assemble` states the exact length.

## Findings

| source | as written | input that shows it | evidently intended | confidence | as-written member | corrected member |
|---|---|---|---|---|---|---|
| ankibot/bot.py:90 | the index is `int(parts[-1])` after splitting the data on every `"::"` | answer `x:` on card 5 gives data `answer::incorrect::x:::5`, whose last part is `:5`, and `int` raises ValueError | the wrong answer is recorded against card 5 | not executed | Payload.AsWrittenLosesIndex | Payload.IncorrectRoundTrip |
| ankibot/bot.py:97 | the answer shown is `parts[2]` | answer `a::b` on card 5 gives data `answer::incorrect::a::b::5`, and the reply shows `a` | the reply shows the whole answer `a::b` | not executed | Payload.AsWrittenCutsAnswer | Payload.IncorrectRoundTrip |
