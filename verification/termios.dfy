/** The terminal attribute record (Linux `struct termios`): four flag words
    and the control-character array, with the flag values of Linux/glibc.
    Besides the record itself, this module gives the two word-level facts
    every mode transform is specified with: "exactly these bits were
    cleared" and "exactly these bits were set". */
module Termios {
  import opened Io

  // Input flags (c_iflag).
  const BRKINT: bv32 := 0x0002
  const INPCK: bv32 := 0x0010
  const ISTRIP: bv32 := 0x0020
  const INLCR: bv32 := 0x0040
  const ICRNL: bv32 := 0x0100
  const IXON: bv32 := 0x0400
  const IUTF8: bv32 := 0x4000

  // Output flags (c_oflag).
  const OPOST: bv32 := 0x0001

  // Control flags (c_cflag). On Linux CS8 is the whole character-size mask.
  const CS8: bv32 := 0x0030

  // Local flags (c_lflag).
  const ISIG: bv32 := 0x0001
  const ICANON: bv32 := 0x0002
  const ECHO: bv32 := 0x0008
  const ECHONL: bv32 := 0x0040
  const IEXTEN: bv32 := 0x8000

  // Control-character array: its length and the two slots used here.
  const NCCS: nat := 32
  const VTIME: nat := 5
  const VMIN: nat := 6

  type ControlChars = s: seq<byte> | |s| == NCCS witness seq(32, i => 0)

  /** One snapshot of a terminal's attributes. The line discipline and the
      baud-rate fields of the C structure are not part of the model. */
  datatype Attrs = Attrs(iflag: bv32, oflag: bv32, cflag: bv32, lflag: bv32, cc: ControlChars)

  /** Every bit of `mask` is set in `word`. */
  predicate AllSet(word: bv32, mask: bv32) {
    word & mask == mask
  }

  /** No bit of `mask` is set in `word`. */
  predicate NoneSet(word: bv32, mask: bv32) {
    word & mask == 0
  }

  /** `before` and `after` agree on every bit outside `mask`. */
  predicate SameOutside(before: bv32, after: bv32, mask: bv32) {
    before & !mask == after & !mask
  }

  /** `after` is `before` with exactly the bits of `mask` turned off. */
  predicate Cleared(before: bv32, after: bv32, mask: bv32) {
    NoneSet(after, mask) && SameOutside(before, after, mask)
  }

  /** `after` is `before` with exactly the bits of `mask` turned on. */
  predicate Raised(before: bv32, after: bv32, mask: bv32) {
    AllSet(after, mask) && SameOutside(before, after, mask)
  }

  /** The C idiom `word &= !mask`. */
  function ClearBits(word: bv32, mask: bv32): (r: bv32)
    ensures Cleared(word, r, mask)
  {
    ClearFacts(word, mask);
    word & !mask
  }

  /** The C idiom `word |= mask`. */
  function SetBits(word: bv32, mask: bv32): (r: bv32)
    ensures Raised(word, r, mask)
  {
    SetFacts(word, mask);
    var r := word | mask;
    assert AllSet(r, mask);
    r
  }

  /** The two specifications pin their word down: whatever satisfies them is
      the result of the C idiom. */
  lemma ClearedIsExact(before: bv32, after: bv32, mask: bv32)
    ensures Cleared(before, after, mask) <==> after == ClearBits(before, mask)
  {
    if Cleared(before, after, mask) {
      SplitWord(after, mask);
    }
  }

  lemma RaisedIsExact(before: bv32, after: bv32, mask: bv32)
    ensures Raised(before, after, mask) <==> after == SetBits(before, mask)
  {
    if Raised(before, after, mask) {
      SplitWord(after, mask);
      SplitOr(before, mask);
    }
  }

  // Bit-vector identities, stated apart so that the solver meets them
  // without the surrounding definitions.

  lemma ClearFacts(w: bv32, m: bv32)
    ensures (w & !m) & m == 0 && (w & !m) & !m == w & !m
  {
  }

  lemma SetFacts(w: bv32, m: bv32)
    ensures (w | m) & m == m && (w | m) & !m == w & !m
  {
  }

  lemma SplitWord(w: bv32, m: bv32)
    ensures w == (w & m) | (w & !m)
  {
  }

  lemma SplitOr(w: bv32, m: bv32)
    ensures w | m == (w & !m) | m
  {
  }
}
