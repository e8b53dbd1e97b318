/** A 64-bit word that holds a state in its low 32 bits and a count in its high 32 bits
    (src/host/publication_gate.cpp:11-33, adapters/lsposed/lsposed_module.cpp:21-72). */
module PackedWord {
  import opened Machine

  /** The word by its halves. */
  datatype Word = Word(state: U32, count: U32)

  function Halves(word: U64): (w: Word) {
    Word(StateOf(word), CountOf(word))
  }

  function StateOf(word: U64): (state: U32) {
    word % 0x1_0000_0000
  }

  function CountOf(word: U64): (count: U32) {
    word / 0x1_0000_0000
  }

  function Pack(state: U32, count: U32): (word: U64)
    ensures StateOf(word) == state && CountOf(word) == count
  {
    count * 0x1_0000_0000 + state
  }

  /** `word + (1 << 32)`: never carries out of the word, never touches the state. */
  function AddOne(word: U64): (after: U64)
    requires CountOf(word) < 0xffff_ffff
    ensures StateOf(after) == StateOf(word) && CountOf(after) == CountOf(word) + 1
  {
    word + 0x1_0000_0000
  }

  /** `word - (1 << 32)`: borrows from nothing while the count is positive. */
  function SubOne(word: U64): (after: U64)
    requires CountOf(word) > 0
    ensures StateOf(after) == StateOf(word) && CountOf(after) == CountOf(word) - 1
  {
    word - 0x1_0000_0000
  }

  /** `(word & ~mask) | state`. */
  function WithState(word: U64, state: U32): (after: U64)
    ensures StateOf(after) == state && CountOf(after) == CountOf(word)
  {
    word - word % 0x1_0000_0000 + state
  }

  /** A step on the halves that one atomic machine operation on the word makes. */
  predicate OneOperation(word: U64, after: U64) {
    || after == word
    || (CountOf(word) < 0xffff_ffff && after == AddOne(word))
    || (CountOf(word) > 0 && after == SubOne(word))
    || after == WithState(word, StateOf(after))
  }

  /** What such an operation does to the halves. */
  predicate OneMove(w: Word, after: Word) {
    || after == w.(state := after.state)
    || (w.count < 0xffff_ffff && after == w.(count := w.count + 1))
    || (w.count > 0 && after == w.(count := w.count - 1))
  }

  lemma MoveOnWord(word: U64, moved: Word)
    requires OneMove(Halves(word), moved)
    ensures exists after :: OneOperation(word, after) && moved == Halves(after)
  {
    var after :=
      if moved.count == CountOf(word) then WithState(word, moved.state)
      else if moved.count > CountOf(word) then AddOne(word)
      else SubOne(word);
    assert OneOperation(word, after) && moved == Halves(after);
  }

  /** A word is determined by its halves. */
  lemma PackedExactly(word: U64, state: U32, count: U32)
    ensures word == Pack(state, count) <==> StateOf(word) == state && CountOf(word) == count
  {
  }
}
