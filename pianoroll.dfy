/**
 * The piano-roll window's state and event handlers: the grid of toggle
 * cells, the column cursor and transport, the list of active players, and
 * the right-button drag gesture. Each handler is one atomic event step.
 */
module PianoRoll {
  import opened Wrappers
  import opened Layout
  import opened Samples
  import opened Clock
  import opened Dispatch

  /** The state of a mouse button as an event reports it. */
  datatype ButtonState = Pressed | Released

  /** A cell of the grid: `row` is the note, `col` the time step. */
  datatype Cell = Cell(row: nat, col: nat)
  {
    predicate InGrid()
    {
      row < Rows && col < Columns
    }
  }

  class Window {
    /** `grid[i, j]` is the checked state of the toggle cell for note i at step j. */
    const grid: array2<bool>
    /** The column the last tick played (the highlighted column). */
    var cursor: nat
    /** Whether the step timer is enabled. */
    var transport: Transport
    /** The active players, oldest first. */
    var players: seq<Player>
    /** The id the next media player gets; stands for allocating a new object. */
    var nextId: nat
    /** Whether a right-button drag is in progress. */
    var isMouseDown: bool
    /** The cell the drag last set, if any. */
    var lastToggled: Option<Cell>

    /**
     * The window invariant: the grid has its fixed shape, the cursor is a
     * column, player ids are distinct and already handed out, and a drag has
     * a recorded cell exactly while it is in progress.
     */
    ghost predicate Valid()
      reads this
    {
      && grid.Length0 == Rows && grid.Length1 == Columns
      && cursor < Columns
      && IdsAscending(players) && IdsBelow(players, nextId)
      && (isMouseDown <==> lastToggled.Some?)
      && (lastToggled.Some? ==> lastToggled.value.InGrid())
    }

    /** The checked states of rows 0 to n - 1 in column `c`, indexed by row. */
    function ColumnPrefix(c: nat, n: nat): (col: seq<bool>)
      requires grid.Length0 == Rows && grid.Length1 == Columns && c < Columns && n <= Rows
      reads grid
      ensures |col| == n
      ensures forall i :: 0 <= i < n ==> col[i] == grid[i, c]
    {
      if n == 0 then [] else ColumnPrefix(c, n - 1) + [grid[n - 1, c]]
    }

    /** The checked states of column `c`, indexed by row. */
    function Column(c: nat): (col: seq<bool>)
      requires grid.Length0 == Rows && grid.Length1 == Columns && c < Columns
      reads grid
      ensures |col| == Rows
      ensures forall i :: 0 <= i < Rows ==> col[i] == grid[i, c]
    {
      ColumnPrefix(c, Rows)
    }

    /** The window as built: every cell unchecked, cursor at 0, stopped, no players, no drag. */
    constructor ()
      ensures Valid() && fresh(grid)
      ensures forall i, j :: 0 <= i < Rows && 0 <= j < Columns ==> !grid[i, j]
      ensures cursor == 0 && transport == Stopped && players == [] && nextId == 0
      ensures !isMouseDown && lastToggled == None
    {
      grid := new bool[Rows, Columns]((i, j) => false);
      cursor := 0;
      transport := Stopped;
      players := [];
      nextId := 0;
      isMouseDown := false;
      lastToggled := None;
    }

    /**
     * Triggers `note`: looks for its sample file; if it is missing, reports it
     * and plays nothing; otherwise creates a player, appends it to the list
     * before starting it, and attaches its completion handler only if
     * starting returned normally.
     */
    method PlayOneNote(note: nat, host: Host) returns (report: Report)
      requires Valid()
      modifies this`players, this`nextId
      ensures Valid()
      ensures players == old(players) + Launch(old(nextId), note, host)
      ensures nextId == old(nextId) + |Launch(old(nextId), note, host)|
      ensures report == Outcome(old(nextId), note, host)
    {
      var fileName := SampleName(note);
      if !host.fileExists(fileName) {
        report := NotFound(fileName);
        return;
      }
      var id := nextId;
      nextId := nextId + 1;
      players := players + [Player(id, note, false)];
      if host.starts(fileName) {
        // Open and Play returned normally: the completion handler is attached.
        players := players[..|players| - 1] + [Player(id, note, true)];
        report := Playing(id);
      } else {
        report := PlaybackError(fileName);
      }
    }

    /**
     * The completion event of player `id`: if its handler is attached, the
     * player is closed and its entry removed from the list.
     */
    method PlayerEnded(id: nat)
      requires Valid()
      modifies this`players
      ensures Valid()
      ensures players == if Subscribed(old(players), id) then Remove(old(players), id) else old(players)
    {
      if Subscribed(players, id) {
        RemoveKeepsIds(players, id, nextId);
        players := Remove(players, id);
      }
    }

    /**
     * Sets the checked state of `cell`. A change from unchecked to checked
     * raises the Checked event, which triggers the cell's note; any other
     * assignment plays nothing.
     */
    method SetChecked(cell: Cell, value: bool, host: Host) returns (report: Option<Report>)
      requires Valid() && cell.InGrid()
      modifies grid, this`players, this`nextId
      ensures Valid()
      ensures grid[cell.row, cell.col] == value
      ensures forall i, j :: 0 <= i < Rows && 0 <= j < Columns && (i != cell.row || j != cell.col) ==>
        grid[i, j] == old(grid[i, j])
      ensures var rising := !old(grid[cell.row, cell.col]) && value;
        && players == old(players) + (if rising then Launch(old(nextId), cell.row, host) else [])
        && nextId == old(nextId) + (if rising then |Launch(old(nextId), cell.row, host)| else 0)
        && report == (if rising then Some(Outcome(old(nextId), cell.row, host)) else None)
    {
      report := None;
      if grid[cell.row, cell.col] != value {
        grid[cell.row, cell.col] := value;
        if value {
          var r := PlayOneNote(cell.row, host);
          report := Some(r);
        }
      }
    }

    /** Flips the checked state of `cell`, as a left click on it does. */
    method Toggle(cell: Cell, host: Host) returns (report: Option<Report>)
      requires Valid() && cell.InGrid()
      modifies grid, this`players, this`nextId
      ensures Valid()
      ensures grid[cell.row, cell.col] == !old(grid[cell.row, cell.col])
      ensures forall i, j :: 0 <= i < Rows && 0 <= j < Columns && (i != cell.row || j != cell.col) ==>
        grid[i, j] == old(grid[i, j])
      ensures var rising := !old(grid[cell.row, cell.col]);
        && players == old(players) + (if rising then Launch(old(nextId), cell.row, host) else [])
        && nextId == old(nextId) + (if rising then |Launch(old(nextId), cell.row, host)| else 0)
        && report == (if rising then Some(Outcome(old(nextId), cell.row, host)) else None)
    {
      report := SetChecked(cell, !grid[cell.row, cell.col], host);
    }

    /**
     * A mouse press on `cell`. With the right button pressed it starts a drag:
     * the cell is toggled and recorded as the last one set. Otherwise nothing
     * happens here.
     */
    method MouseDown(right: ButtonState, cell: Cell, host: Host) returns (report: Option<Report>)
      requires Valid() && cell.InGrid()
      modifies this, grid
      ensures Valid()
      ensures cursor == old(cursor) && transport == old(transport)
      ensures right == Released ==>
        && isMouseDown == old(isMouseDown) && lastToggled == old(lastToggled)
        && players == old(players) && nextId == old(nextId) && report == None
        && forall i, j :: 0 <= i < Rows && 0 <= j < Columns ==> grid[i, j] == old(grid[i, j])
      ensures right == Pressed ==>
        && isMouseDown && lastToggled == Some(cell)
        && grid[cell.row, cell.col] == !old(grid[cell.row, cell.col])
        && (forall i, j :: 0 <= i < Rows && 0 <= j < Columns && (i != cell.row || j != cell.col) ==>
              grid[i, j] == old(grid[i, j]))
        && var rising := !old(grid[cell.row, cell.col]);
           && players == old(players) + (if rising then Launch(old(nextId), cell.row, host) else [])
           && nextId == old(nextId) + (if rising then |Launch(old(nextId), cell.row, host)| else 0)
           && report == (if rising then Some(Outcome(old(nextId), cell.row, host)) else None)
    {
      report := None;
      if right == Pressed {
        // Toggle reads and writes neither field, so setting both after it is
        // the same as setting the flag before it and the record after it.
        report := Toggle(cell, host);
        isMouseDown, lastToggled := true, Some(cell);
      }
    }

    /**
     * The mouse moving over `cell`. During a right-button drag, a cell other
     * than the last one set takes the last cell's state (false if none is
     * recorded) and becomes the last one set. Otherwise nothing changes.
     */
    method MouseMove(right: ButtonState, cell: Cell, host: Host) returns (report: Option<Report>)
      requires Valid() && cell.InGrid()
      modifies this, grid
      ensures Valid()
      ensures cursor == old(cursor) && transport == old(transport) && isMouseDown == old(isMouseDown)
      ensures var copies := right == Pressed && old(isMouseDown) && old(lastToggled) != Some(cell);
        && (!copies ==>
              && lastToggled == old(lastToggled) && players == old(players) && nextId == old(nextId)
              && report == None
              && forall i, j :: 0 <= i < Rows && 0 <= j < Columns ==> grid[i, j] == old(grid[i, j]))
        && (copies ==>
              var value := match old(lastToggled)
                           case Some(c) => old(grid[c.row, c.col])
                           case None => false;
              var rising := !old(grid[cell.row, cell.col]) && value;
              && lastToggled == Some(cell)
              && grid[cell.row, cell.col] == value
              && (forall i, j :: 0 <= i < Rows && 0 <= j < Columns && (i != cell.row || j != cell.col) ==>
                    grid[i, j] == old(grid[i, j]))
              && players == old(players) + (if rising then Launch(old(nextId), cell.row, host) else [])
              && nextId == old(nextId) + (if rising then |Launch(old(nextId), cell.row, host)| else 0)
              && report == (if rising then Some(Outcome(old(nextId), cell.row, host)) else None))
    {
      report := None;
      if right == Pressed && isMouseDown {
        if lastToggled != Some(cell) {
          var value := match lastToggled
                       case Some(c) => grid[c.row, c.col]
                       case None => false;
          report := SetChecked(cell, value, host);
          lastToggled := Some(cell);
        }
      }
    }

    /** A mouse release. When the right button is up, the drag ends and its record is cleared. */
    method MouseUp(right: ButtonState)
      requires Valid()
      modifies this`isMouseDown, this`lastToggled
      ensures Valid()
      ensures right == Released ==> !isMouseDown && lastToggled == None
      ensures right == Pressed ==> isMouseDown == old(isMouseDown) && lastToggled == old(lastToggled)
    {
      if right == Released {
        isMouseDown := false;
        lastToggled := None;
      }
    }

    /** One row of a tick: the row's note is triggered if its cell in the cursor's column is checked. */
    method TriggerIfChecked(note: nat, host: Host) returns (played: bool)
      requires Valid() && note < Rows
      modifies this`players, this`nextId
      ensures Valid()
      ensures played == grid[note, cursor]
      ensures players == old(players) + (if played then Launch(old(nextId), note, host) else [])
      ensures nextId == old(nextId) + (if played then |Launch(old(nextId), note, host)| else 0)
    {
      played := grid[note, cursor];
      if played {
        var _ := PlayOneNote(note, host);
      }
    }

    /**
     * Row `note` of a tick, given the rows `triggered` so far among rows below
     * it: the row is triggered if checked, which extends both the triggered
     * rows and the players a tick appends by one more step.
     */
    method TickRow(note: nat, host: Host, ghost col: seq<bool>, ghost start: seq<Player>, ghost startId: nat,
                   triggered: seq<nat>) returns (extended: seq<nat>)
      requires Valid() && note < Rows && |col| == Rows
      requires forall i :: 0 <= i < Rows ==> col[i] == grid[i, cursor]
      requires triggered == ActiveRows(col[..note])
      requires players == start + LaunchAll(startId, triggered, host)
      requires nextId == startId + |LaunchAll(startId, triggered, host)|
      modifies this`players, this`nextId
      ensures Valid()
      ensures extended == ActiveRows(col[..note + 1])
      ensures players == start + LaunchAll(startId, extended, host)
      ensures nextId == startId + |LaunchAll(startId, extended, host)|
    {
      ActiveRowsSnoc(col, note);
      ghost var before, id := players, nextId;
      var played := TriggerIfChecked(note, host);
      extended := triggered;
      if played {
        LaunchOneMore(start, startId, triggered, note, host, before, id, players);
        extended := triggered + [note];
      }
    }

    /**
     * One tick of the step timer: the cursor moves to the next column, and the
     * note of every checked cell in that column is triggered, from row 0 up.
     * Returns the rows triggered. The grid is not changed.
     */
    method Tick(host: Host) returns (triggered: seq<nat>)
      requires Valid()
      modifies this`cursor, this`players, this`nextId
      ensures Valid()
      ensures cursor == Advance(old(cursor))
      ensures triggered == ActiveRows(Column(cursor))
      ensures players == old(players) + LaunchAll(old(nextId), triggered, host)
      ensures nextId == old(nextId) + |LaunchAll(old(nextId), triggered, host)|
    {
      cursor := (cursor + 1) % Columns;
      ghost var col := Column(cursor);
      triggered := [];
      var note := 0;
      while note < Rows
        invariant 0 <= note <= Rows
        invariant Valid() && cursor == Advance(old(cursor))
        invariant forall i :: 0 <= i < Rows ==> col[i] == grid[i, cursor]
        invariant triggered == ActiveRows(col[..note])
        invariant players == old(players) + LaunchAll(old(nextId), triggered, host)
        invariant nextId == old(nextId) + |LaunchAll(old(nextId), triggered, host)|
      {
        triggered := TickRow(note, host, col, old(players), old(nextId), triggered);
        note := note + 1;
      }
      assert col[..Rows] == col == Column(cursor);
    }

    /**
     * The Play/Stop button: a running timer is stopped and the cursor kept;
     * a stopped one has its cursor reset to column 0 and is started.
     */
    method Play()
      requires Valid()
      modifies this`transport, this`cursor
      ensures Valid()
      ensures (transport, cursor) == PressPlay(old(transport), old(cursor))
    {
      if transport == Running {
        transport := Stopped;
      } else {
        cursor := 0;
        transport := Running;
      }
    }

    /** The Clear button: every cell is unchecked, which triggers no note. */
    method Clear()
      requires Valid()
      modifies grid
      ensures Valid()
      ensures forall i, j :: 0 <= i < Rows && 0 <= j < Columns ==> !grid[i, j]
      ensures cursor == old(cursor) && transport == old(transport) && players == old(players)
    {
      var i := 0;
      while i < Rows
        invariant 0 <= i <= Rows
        invariant forall r, c :: 0 <= r < i && 0 <= c < Columns ==> !grid[r, c]
      {
        var j := 0;
        while j < Columns
          invariant 0 <= j <= Columns
          invariant forall r, c :: 0 <= r < i && 0 <= c < Columns ==> !grid[r, c]
          invariant forall c :: 0 <= c < j ==> !grid[i, c]
        {
          grid[i, j] := false;
          j := j + 1;
        }
        i := i + 1;
      }
    }
  }
}
