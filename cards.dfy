/**
 * The deck the quiz engine works on: an ordered table of items, each with
 * a question, its correct answer and the group that supplies distractors.
 * The position of an item in the deck is its identity everywhere else.
 */
module Cards {

  datatype Item = Item(question: string, answer: string, group: string)

  type Deck = seq<Item>
}
