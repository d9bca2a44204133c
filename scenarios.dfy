/**
 * Client scenarios: what a caller of the window can conclude from the
 * handlers' contracts alone, for a few concrete event sequences.
 */
module Scenarios {
  import opened Layout
  import opened Clock
  import opened Dispatch
  import opened PianoRoll

  /**
   * Checking (2,5), (7,5) and (2,5) again, then pressing Play and ticking
   * five times: the fifth tick plays column 5 and triggers rows 2 and 7, in
   * that order, once each.
   */
  method TicksReachCheckedColumn(host: Host) returns (cursor: nat, triggered: seq<nat>)
    ensures cursor == 5
    ensures triggered == [2, 7]
  {
    var w := CheckColumnFive(host);
    w.Play();
    var k := 0;
    while k < 4
      invariant 0 <= k <= 4
      invariant w.Valid() && w.cursor == k
      invariant forall i, j :: 0 <= i < Rows && 0 <= j < Columns ==> w.grid[i, j] == (j == 5 && (i == 2 || i == 7))
    {
      var _ := w.Tick(host);
      k := k + 1;
    }
    triggered := w.Tick(host);
    cursor := w.cursor;
    ActiveRowsUnique(w.Column(5), [2, 7]);
  }

  /** A fresh window, stopped, with exactly (2,5) and (7,5) checked; (2,5) is set twice. */
  method CheckColumnFive(host: Host) returns (w: Window)
    ensures fresh(w) && fresh(w.grid) && w.Valid()
    ensures w.cursor == 0 && w.transport == Stopped
    ensures forall i, j :: 0 <= i < Rows && 0 <= j < Columns ==> w.grid[i, j] == (j == 5 && (i == 2 || i == 7))
  {
    w := new Window();
    var _ := w.SetChecked(Cell(2, 5), true, host);
    var _ := w.SetChecked(Cell(7, 5), true, host);
    var _ := w.SetChecked(Cell(2, 5), true, host);
  }

  /**
   * A right-button drag from (0,3) over (1,3), (2,3) and back over (2,3):
   * the pressed cell is toggled on and every later cell takes its state.
   * After the release, moving over the checked cell (1,3) leaves it checked:
   * the move is ignored rather than copying the cleared record's false.
   */
  method DragCopiesFirstState(host: Host) returns (first: bool, second: bool, third: bool, afterRelease: bool)
    ensures first && second && third
    ensures afterRelease
  {
    var w := new Window();
    var _ := w.MouseDown(Pressed, Cell(0, 3), host);
    var _ := w.MouseMove(Pressed, Cell(1, 3), host);
    var _ := w.MouseMove(Pressed, Cell(2, 3), host);
    var _ := w.MouseMove(Pressed, Cell(2, 3), host);
    w.MouseUp(Released);
    var _ := w.MouseMove(Pressed, Cell(1, 3), host);
    first, second, third, afterRelease := w.grid[0, 3], w.grid[1, 3], w.grid[2, 3], w.grid[1, 3];
  }

  /**
   * Any right-button drag: a press on `start` followed by moves over the cells
   * of `path`. The pressed cell is toggled, every cell on the path ends with
   * the pressed cell's new state, and no other cell changes.
   */
  method DragPaintsPath(w: Window, start: Cell, path: seq<Cell>, host: Host) returns (value: bool)
    requires w.Valid() && start.InGrid()
    requires forall k :: 0 <= k < |path| ==> path[k].row < Rows && path[k].col < Columns
    modifies w, w.grid
    ensures w.Valid() && w.isMouseDown
    ensures value == !old(w.grid[start.row, start.col])
    ensures w.grid[start.row, start.col] == value
    ensures forall k :: 0 <= k < |path| ==> w.grid[path[k].row, path[k].col] == value
    ensures forall i, j :: 0 <= i < Rows && 0 <= j < Columns && Cell(i, j) != start && Cell(i, j) !in path ==>
      w.grid[i, j] == old(w.grid[i, j])
  {
    var _ := w.MouseDown(Pressed, start, host);
    value := w.grid[start.row, start.col];
    var n := 0;
    while n < |path|
      invariant 0 <= n <= |path|
      invariant w.Valid() && w.isMouseDown && w.lastToggled.Some?
      invariant w.grid[w.lastToggled.value.row, w.lastToggled.value.col] == value
      invariant w.grid[start.row, start.col] == value
      invariant forall k :: 0 <= k < n ==> w.grid[path[k].row, path[k].col] == value
      invariant forall i, j :: 0 <= i < Rows && 0 <= j < Columns && Cell(i, j) != start && Cell(i, j) !in path[..n] ==>
        w.grid[i, j] == old(w.grid[i, j])
    {
      var _ := w.MouseMove(Pressed, path[n], host);
      assert path[..n + 1] == path[..n] + [path[n]];
      n := n + 1;
    }
    assert path[..n] == path;
  }

  /**
   * With the sample of row 4 present and starting, checking a cell of row 4
   * starts one player. Starting and stopping the transport leaves it active;
   * only its completion removes it.
   */
  method StopKeepsPlayersUntilTheyEnd(host: Host) returns (whileStopped: nat, afterEnd: nat)
    requires host.fileExists(Samples.SampleName(4)) && host.starts(Samples.SampleName(4))
    ensures whileStopped == 1
    ensures afterEnd == 0
  {
    var w := new Window();
    var _ := w.SetChecked(Cell(4, 1), true, host);
    assert w.players == [Player(0, 4, true)];
    w.Play();
    w.Play();
    whileStopped := |w.players|;
    assert Subscribed(w.players, 0);
    w.PlayerEnded(0);
    afterEnd := |w.players|;
  }
}
