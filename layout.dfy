/**
 * The fixed shape of the piano roll and the two pure helpers that decide how
 * a row is drawn: whether it is a black key, and where it appears on screen.
 */
module Layout {
  /** Number of pitch rows: two octaves, row 0 being the lowest note. */
  const Rows: nat := 24
  /** Number of time steps in one loop of the sequencer. */
  const Columns: nat := 32
  /** Semitone offsets within an octave that are black keys (C#, D#, F#, G#, A#). */
  const BlackKeys: set<nat> := {1, 3, 6, 8, 10}

  /** Row `i` is drawn as a black key when its pitch class is one of BlackKeys. */
  predicate IsBlackKey(i: nat)
  {
    i % 12 in BlackKeys
  }

  /** The colour pattern repeats every octave. */
  lemma BlackKeyPeriodic(i: nat)
    ensures IsBlackKey(i + 12) == IsBlackKey(i)
  {
  }

  /** Two black keys are never neighbours: the row above a black key is white. */
  lemma BlackKeysNotAdjacent(i: nat)
    ensures IsBlackKey(i) ==> !IsBlackKey(i + 1)
  {
  }

  /** Every octave has exactly five black keys, hence seven white ones. */
  lemma FiveBlackKeysPerOctave(o: nat)
    ensures |set k | 12 * o <= k < 12 * o + 12 && IsBlackKey(k)| == 5
  {
    var s := set k | 12 * o <= k < 12 * o + 12 && IsBlackKey(k);
    var b := 12 * o;
    forall k | b <= k < b + 12
      ensures k % 12 == k - b
    {
      assert k == 12 * o + (k - b);
    }
    assert s == {b + 1, b + 3, b + 6, b + 8, b + 10};
  }

  /**
   * The grid row on screen that shows note `i`: the order is reversed so that
   * low notes are at the bottom of the window.
   */
  function DisplayRow(i: nat): (r: nat)
    requires i < Rows
    ensures r < Rows
  {
    Rows - 1 - i
  }

  /** Flipping twice gives back the note, so the flip is a bijection on rows. */
  lemma DisplayRowInvolution(i: nat)
    requires i < Rows
    ensures DisplayRow(DisplayRow(i)) == i
  {
  }

  /** Higher notes are drawn on higher screen rows (smaller row numbers). */
  lemma DisplayRowReversesOrder(i: nat, j: nat)
    requires i < j < Rows
    ensures DisplayRow(j) < DisplayRow(i)
    ensures DisplayRow(0) == Rows - 1 && DisplayRow(Rows - 1) == 0
  {
  }
}
