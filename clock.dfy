/**
 * The sequencer clock and the transport: the column cursor, the rows a tick
 * reads from the current column, and the Play/Stop toggle.
 */
module Clock {
  import opened Layout

  /** The cursor after one tick: the next column, wrapping from the last column to the first. */
  function Advance(c: nat): (r: nat)
    requires c < Columns
    ensures r < Columns
    ensures r == if c == Columns - 1 then 0 else c + 1
  {
    (c + 1) % Columns
  }

  /** The cursor after `n` ticks from `c`. */
  function AdvanceN(c: nat, n: nat): (r: nat)
    requires c < Columns
    ensures r < Columns
    decreases n
  {
    if n == 0 then c else Advance(AdvanceN(c, n - 1))
  }

  /** Ticking is exact modular arithmetic on the cursor. */
  lemma {:induction false} AdvanceNModular(c: nat, n: nat)
    requires c < Columns
    ensures AdvanceN(c, n) == (c + n) % Columns
    decreases n
  {
    if n > 0 {
      AdvanceNModular(c, n - 1);
      AdvanceOfRemainder(c + n - 1);
    }
  }

  /** Advancing the remainder of `x` gives the remainder of `x + 1`. */
  lemma AdvanceOfRemainder(x: nat)
    ensures Advance(x % Columns) == (x + 1) % Columns
  {
  }

  /** Right after a start (cursor 0) the first tick plays column 1. */
  lemma FirstTickAfterStart()
    ensures AdvanceN(0, 1) == 1
  {
  }

  /** A whole loop of ticks, or any number of whole loops, returns the cursor to where it was. */
  lemma WholeLoopsReturn(c: nat, loops: nat)
    requires c < Columns
    ensures AdvanceN(c, loops * Columns) == c
  {
    AdvanceNModular(c, loops * Columns);
    assert c + loops * Columns == loops * Columns + c;
  }

  predicate StrictlyAscending(s: seq<nat>)
  {
    forall j, k :: 0 <= j < k < |s| ==> s[j] < s[k]
  }

  /**
   * The rows whose cell is checked in a column (`col[i]` is row `i`), in the
   * order a tick visits them: from row 0 upwards.
   */
  function ActiveRows(col: seq<bool>): (rows: seq<nat>)
    ensures forall k :: 0 <= k < |rows| ==> rows[k] < |col| && col[rows[k]]
    ensures StrictlyAscending(rows)
    ensures |rows| <= |col|
    decreases |col|
  {
    if col == [] then []
    else
      var rest := ActiveRows(col[..|col| - 1]);
      if col[|col| - 1] then rest + [|col| - 1] else rest
  }

  /** Scanning one more row of a column adds that row if it is checked. */
  lemma {:induction false} ActiveRowsSnoc(col: seq<bool>, n: nat)
    requires n < |col|
    ensures ActiveRows(col[..n + 1]) == ActiveRows(col[..n]) + (if col[n] then [n] else [])
  {
    assert col[..n + 1][..n] == col[..n];
  }

  /** No checked row is skipped. */
  lemma {:induction false} ActiveRowsComplete(col: seq<bool>, i: nat)
    requires i < |col| && col[i]
    ensures i in ActiveRows(col)
    decreases |col|
  {
    if i < |col| - 1 {
      ActiveRowsComplete(col[..|col| - 1], i);
    }
  }

  /** A strictly ascending list of numbers below `m` has at most `m` entries: it has no duplicates. */
  lemma {:induction false} AscendingBounded(rows: seq<nat>, m: nat)
    requires StrictlyAscending(rows)
    requires forall k :: 0 <= k < |rows| ==> rows[k] < m
    ensures |rows| <= m
    decreases m
  {
    if rows != [] {
      var last := |rows| - 1;
      var front := rows[..last];
      assert rows[last] < m;
      forall k | 0 <= k < |front| ensures front[k] < m - 1 {
        assert rows[k] < rows[last];
      }
      AscendingBounded(front, m - 1);
    }
  }

  /** In an ascending list bounded by one of its members, that member is the last. */
  lemma LastOfAscending(rows: seq<nat>, n: nat)
    requires StrictlyAscending(rows) && n in rows
    requires forall k :: 0 <= k < |rows| ==> rows[k] <= n
    ensures rows[|rows| - 1] == n
  {
    var p :| 0 <= p < |rows| && rows[p] == n;
    assert rows[p] <= rows[|rows| - 1];
  }

  /**
   * The step of ActiveRowsUnique: dropping the last row of the column, and
   * that row from the list when it is checked, keeps the three properties.
   */
  lemma DropLastRow(col: seq<bool>, rows: seq<nat>) returns (front: seq<nat>)
    requires col != []
    requires StrictlyAscending(rows)
    requires forall k :: 0 <= k < |rows| ==> rows[k] < |col| && col[rows[k]]
    requires forall i :: 0 <= i < |col| && col[i] ==> i in rows
    ensures rows == if col[|col| - 1] then front + [|col| - 1] else front
    ensures StrictlyAscending(front)
    ensures forall k :: 0 <= k < |front| ==> front[k] < |col| - 1 && col[..|col| - 1][front[k]]
    ensures forall i :: 0 <= i < |col| - 1 && col[i] ==> i in front
  {
    var n := |col| - 1;
    if col[n] {
      LastOfAscending(rows, n);
      front := rows[..|rows| - 1];
      assert rows == front + [n];
      forall k | 0 <= k < |front| ensures front[k] < n {
        assert rows[k] < rows[|rows| - 1];
      }
    } else {
      front := rows;
      forall k | 0 <= k < |front| ensures front[k] < n {
        assert col[rows[k]];
      }
    }
    forall i | 0 <= i < n && col[i] ensures i in front {
      StillInFront(rows, front, n, i);
    }
  }

  /** A row other than `n` that is in `rows` is still in `rows` once a final `n` is dropped. */
  lemma StillInFront(rows: seq<nat>, front: seq<nat>, n: nat, i: nat)
    requires rows == front + [n] || rows == front
    requires i in rows && i != n
    ensures i in front
  {
    var p :| 0 <= p < |rows| && rows[p] == i;
    assert p < |front|;
    assert front[p] == i;
  }

  /**
   * ActiveRows is the only ascending list of exactly the checked rows: any
   * list with those properties is equal to it.
   */
  lemma {:induction false} ActiveRowsUnique(col: seq<bool>, rows: seq<nat>)
    requires StrictlyAscending(rows)
    requires forall k :: 0 <= k < |rows| ==> rows[k] < |col| && col[rows[k]]
    requires forall i :: 0 <= i < |col| && col[i] ==> i in rows
    ensures rows == ActiveRows(col)
    decreases |col|
  {
    if col != [] {
      var front := DropLastRow(col, rows);
      var init := col[..|col| - 1];
      forall i | 0 <= i < |init| && init[i] ensures i in front {
        assert col[i];
      }
      ActiveRowsUnique(init, front);
    } else {
      AscendingBounded(rows, 0);
    }
  }

  /** A column with no checked cell triggers nothing, as after Clear. */
  lemma ActiveRowsOfEmptyColumn(col: seq<bool>)
    requires forall i :: 0 <= i < |col| ==> !col[i]
    ensures ActiveRows(col) == []
  {
  }

  /** The transport: whether the step timer is enabled. */
  datatype Transport = Stopped | Running

  /**
   * Pressing Play: a running transport stops and keeps its cursor; a stopped
   * one resets the cursor to column 0 and starts.
   */
  function PressPlay(t: Transport, cursor: nat): (r: (Transport, nat))
    ensures r.0 != t
    ensures r.0 == Running ==> r.1 == 0
    ensures r.0 == Stopped ==> r.1 == cursor
  {
    match t
    case Running => (Stopped, cursor)
    case Stopped => (Running, 0)
  }

  /** Two presses restore the transport and leave the cursor at column 0. */
  lemma PressPlayTwice(t: Transport, cursor: nat)
    ensures PressPlay(PressPlay(t, cursor).0, PressPlay(t, cursor).1).0 == t
    ensures PressPlay(PressPlay(t, cursor).0, PressPlay(t, cursor).1).1 == 0
  {
  }
}
