/** The numbers that a 32-bit generator hands out. */
module RandomDraws {
  newtype Word = x: int | 0 <= x < 0x1_0000_0000

  function ToWord(b: bv32): Word
  {
    b as Word
  }

  /** All that a generator will ever draw. */
  type Draws = nat -> Word

  /** The place that a draw falls on: its fraction of the length, rounded down. */
  function Pick(bits: Word, length: nat): (k: nat)
    requires length > 0
    ensures k < length
  {
    PickInRange(bits, length);
    bits as nat * length / 0x1_0000_0000
  }

  lemma PickInRange(bits: Word, length: nat)
    requires length > 0
    ensures bits as nat * length / 0x1_0000_0000 < length
  {
    assert bits as nat * length <= 0xffff_ffff * length;
  }

  /** Where the draws of the next round start, when each round takes the same number. */
  lemma NextStart(round: nat, stride: nat)
    ensures (round + 1) * stride == round * stride + stride
  {
  }
}
