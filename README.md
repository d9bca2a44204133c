# Piano-roll step sequencer — Dafny model

This project models the core of a WPF piano-roll window (`MainWindow.xaml.cs`). The window holds a 24 × 32 grid of toggle cells. Rows are notes: row 0 is the lowest and is drawn at the bottom. Columns are time steps. A step timer moves a column cursor and plays the sample of every checked cell in the new column. The model covers:

- **Grid.** A `const grid: array2<bool>` of fixed shape (`PianoRoll.Window`). It is set by `SetChecked`, flipped by `Toggle` and cleared by the nested loop of `Clear`. A cell going from unchecked to checked raises the Checked event, which triggers the cell's note. Unchecking and assigning the same value trigger nothing.
- **Clock and transport.** `Tick` moves the cursor to `(cursor + 1) % 32`. It then loops over the rows from 0 upwards and triggers every checked one. It returns the rows it triggered and is proved against `Clock.ActiveRows` of the new column. `Play` toggles between Running and Stopped. It resets the cursor to 0 only when starting (`Clock.PressPlay`).
- **Sample dispatcher.** Note `n` is played from `"key" + (n + 1) in D2 format + ".wav"` (`Samples.SampleName`). `Samples.NoteOfSample` reads that name back, which makes the naming injective. `PlayOneNote` checks the injected file-existence predicate. On a missing file it reports `NotFound` and plays nothing. Otherwise it appends a fresh, unsubscribed player to `players` and then starts it. Only if starting returns normally is the entry marked as having its completion handler attached. If starting throws, the player stays in the list unsubscribed. `PlayerEnded` is the completion event. It removes the first entry with that id, as `List.Remove` does (`Dispatch.Remove`).
- **Drag gesture.** `MouseDown`, `MouseMove` and `MouseUp` update `isMouseDown` and `lastToggled`. A right-button press toggles the cell and records it. A move during the drag copies the recorded cell's state into a different cell, then records that cell. A release ends the drag.
- **Display helpers.** `Layout.IsBlackKey` (`i % 12` in {1, 3, 6, 8, 10}) and `Layout.DisplayRow` (`Rows - 1 - i`).

Modelling choices:
- The host is a parameter, `Dispatch.Host`. It carries two predicates on file names: whether the file exists, and whether opening and starting it returns normally.
- Media players are opaque ids handed out by the `nextId` counter. `Window.Valid()` keeps the ids in `players` strictly ascending and below `nextId`.
- Message boxes become `Dispatch.Report` values.
- Each event handler is one atomic step.

Two behaviours of the code worth stating plainly:
- A failed start does not undo the append. The player added at `MainWindow.xaml.cs:196` stays in the list. Its completion handler (`:200`) is never attached, so it is never removed (`Dispatch.FailedStartIsNeverRemoved`).
- Drag painting copies the value of the *last* cell set (`MainWindow.xaml.cs:128`), not of the pressed cell. Every cell a drag sets takes that same value, so for a press followed by moves every cell on the path ends with the pressed cell's new value (`Scenarios.DragPaintsPath`). An event between the moves that changes the recorded cell, such as Clear, changes what later moves paint.

## Model

| member | source | states |
|---|---|---|
| Layout.IsBlackKey | MainWindow.xaml.cs:57 | row i is drawn black exactly when i % 12 is 1, 3, 6, 8 or 10 |
| Layout.BlackKeyPeriodic | MainWindow.xaml.cs:57 | whether a row is a black key depends only on its octave position |
| Layout.BlackKeysNotAdjacent | MainWindow.xaml.cs:57 | the row just above a black key is a white key |
| Layout.FiveBlackKeysPerOctave | MainWindow.xaml.cs:19 | every octave of rows has exactly five black keys |
| Layout.DisplayRow | MainWindow.xaml.cs:86 | the screen row of a note is a valid grid row |
| Layout.DisplayRowInvolution | MainWindow.xaml.cs:86 | flipping a row twice gives the note back, so the flip is a bijection |
| Layout.DisplayRowReversesOrder | MainWindow.xaml.cs:86 | higher notes are drawn higher: the lowest note is on the bottom screen row, the highest on the top |
| Samples.Decimal | MainWindow.xaml.cs:182 | the decimal rendering is all digits, has no leading zero, and has one digit below 10 and two from 10 to 99 |
| Samples.ParseDecimalRoundTrip | MainWindow.xaml.cs:182 | reading back the decimal rendering of n gives n |
| Samples.FormatD2 | MainWindow.xaml.cs:182 | the D2 rendering has at least two digits, exactly two below 100 |
| Samples.FormatD2RoundTrip | MainWindow.xaml.cs:182 | the zero padding loses nothing: reading back the D2 rendering of n gives n |
| Samples.SampleName | MainWindow.xaml.cs:182 | a sample name is at least 9 characters, exactly 9 for the notes of the roll |
| Samples.SampleNameRoundTrip | MainWindow.xaml.cs:182 | parsing the sample name of a note gives that note back |
| Samples.SampleNameInjective | MainWindow.xaml.cs:182 | different notes use different sample files |
| Samples.SampleNamesOfRange | MainWindow.xaml.cs:182 | row 0 plays key01.wav and row 23 plays key24.wav |
| Clock.Advance | MainWindow.xaml.cs:152 | a tick moves the cursor to the next column, wrapping from column 31 to 0, so it stays in [0, 32) |
| Clock.AdvanceNModular | MainWindow.xaml.cs:152 | n ticks from column c reach column (c + n) mod 32 |
| Clock.FirstTickAfterStart | MainWindow.xaml.cs:173 | from the start cursor 0, the first tick plays column 1 |
| Clock.WholeLoopsReturn | MainWindow.xaml.cs:152 | any whole number of 32-tick loops brings the cursor back to where it started |
| Clock.ActiveRows | MainWindow.xaml.cs:155-161 | the rows a tick triggers are checked rows of the column, in strictly ascending order without duplicates |
| Clock.ActiveRowsComplete | MainWindow.xaml.cs:155-161 | every checked row of the column is triggered |
| Clock.ActiveRowsUnique | MainWindow.xaml.cs:155-161 | any ascending list of exactly the checked rows equals the rows a tick triggers |
| Clock.AscendingBounded | MainWindow.xaml.cs:155-161 | a tick triggers at most as many notes as there are rows |
| Clock.ActiveRowsOfEmptyColumn | MainWindow.xaml.cs:212-224 | after Clear, a tick triggers nothing |
| Clock.PressPlay | MainWindow.xaml.cs:164-178 | Play flips the transport; starting sets the cursor to 0, stopping keeps it |
| Clock.PressPlayTwice | MainWindow.xaml.cs:164-178 | two presses of Play restore the transport and leave the cursor at 0 |
| Dispatch.Launch | MainWindow.xaml.cs:187-199 | triggering a note adds no player if its file is missing; otherwise exactly one player with the next id, subscribed only if starting succeeded |
| Dispatch.Outcome | MainWindow.xaml.cs:187-209 | the note is reported missing exactly when nothing is added, and plays exactly when a subscribed player is added |
| Dispatch.LaunchAll | MainWindow.xaml.cs:155-161 | the players added by a tick have consecutive fresh ids, one per triggered note at most |
| Dispatch.LaunchAllPlaysPlayable | MainWindow.xaml.cs:155-161 | a tick adds one player per triggered note whose file exists, in trigger order, each subscribed exactly when its start succeeded |
| Dispatch.PlayableAll | MainWindow.xaml.cs:187 | when every sample exists, every triggered note gets a player |
| Dispatch.AppendKeepsIds | MainWindow.xaml.cs:195-196 | appending new players keeps ids distinct and ascending |
| Dispatch.Remove | MainWindow.xaml.cs:203 | removal deletes at most one entry and adds nothing |
| Dispatch.RemoveAt | MainWindow.xaml.cs:203 | removal deletes the first entry with the id and keeps the order of the others |
| Dispatch.RemoveAbsent | MainWindow.xaml.cs:203 | removing an id that is not in the list changes nothing |
| Dispatch.RemoveExactlyOne | MainWindow.xaml.cs:200-204 | a completion removes exactly the finished player: one entry fewer, others in order, that id gone |
| Dispatch.RemoveKeepsIds | MainWindow.xaml.cs:203 | removal keeps ids distinct, ascending and already handed out |
| Dispatch.FailedStartIsNeverRemoved | MainWindow.xaml.cs:193-209 | a player whose start threw has no completion handler, so no completion removes it |
| PianoRoll.Window.constructor | MainWindow.xaml.cs:18-25 | the window starts with every cell unchecked, cursor 0, stopped, no players and no drag |
| PianoRoll.Window.PlayOneNote | MainWindow.xaml.cs:180-210 | a missing file leaves the players unchanged and is reported; otherwise exactly one fresh player is appended, before its start, even when the start throws |
| PianoRoll.Window.PlayerEnded | MainWindow.xaml.cs:200-204 | the completion of a subscribed player removes that player; any other completion changes nothing |
| PianoRoll.Window.SetChecked | MainWindow.xaml.cs:69-77 | setting a cell changes only that cell and triggers its note exactly when it goes from unchecked to checked |
| PianoRoll.Window.Toggle | MainWindow.xaml.cs:69-73 | toggling flips only that cell and triggers its note exactly when it becomes checked |
| PianoRoll.Window.MouseDown | MainWindow.xaml.cs:103-116 | a right-button press toggles the cell, starts the drag and records the cell; other presses change nothing |
| PianoRoll.Window.MouseMove | MainWindow.xaml.cs:118-132 | during a drag, a cell other than the recorded one takes the recorded cell's value and becomes the recorded cell; otherwise nothing changes |
| PianoRoll.Window.MouseUp | MainWindow.xaml.cs:134-141 | releasing the right button ends the drag and clears the record |
| PianoRoll.Window.TriggerIfChecked | MainWindow.xaml.cs:157-160 | a row's note is triggered exactly when its cell in the cursor's column is checked |
| PianoRoll.Window.Tick | MainWindow.xaml.cs:150-162 | the cursor advances one column mod 32; the checked rows of the new column are triggered in ascending order; the players grow by their launches; the grid is not changed |
| PianoRoll.Window.Play | MainWindow.xaml.cs:164-178 | a running timer stops with the cursor kept; a stopped one restarts from cursor 0 |
| PianoRoll.Window.Clear | MainWindow.xaml.cs:212-224 | every one of the 24 × 32 cells is unchecked; cursor, transport and players are untouched |
| Scenarios.TicksReachCheckedColumn | MainWindow.xaml.cs:150-162 | with cells (2,5), (7,5), (2,5) set, the fifth tick after Play triggers rows 2 and 7, once each, in that order |
| Scenarios.DragCopiesFirstState | MainWindow.xaml.cs:103-141 | one concrete drag over one column paints every visited cell with the pressed cell's new state; a move after release over a checked cell leaves it checked |
| Scenarios.DragPaintsPath | MainWindow.xaml.cs:103-132 | for any window, pressed cell and path of moves, the pressed cell is toggled, every cell on the path ends with its new state, and every other cell is unchanged |
| Scenarios.StopKeepsPlayersUntilTheyEnd | MainWindow.xaml.cs:196-204 | stopping the transport does not end playback: the player stays until its completion removes it |

## Left out

- WPF rendering: colours and brushes, the highlight border, row and column definitions, and grid placement. They do not affect the state. The Unchecked handler only recolours, so it is a no-op in the model.
- Timing of the `DispatcherTimer`, including its 250 ms interval. Each tick is an explicit call to `Tick`, which does not check the transport. The model leaves it to the caller to call `Tick` only while running, as the timer does.
- The audio subsystem: `MediaPlayer`, `Open`, `Play`, `Close` and the `Uri`. A player is an opaque id. `Host.starts` says whether `Open`/`Play` return normally. `PlayerEnded` is the completion event.
- The file system and path resolution (`File.Exists`, the base, project and sound folders). These are replaced by `Host.fileExists` on the bare file name. The reports therefore carry the file name, not the full path.
- `MessageBox.Show` and `Console.WriteLine`. They are user-notification I/O. The message boxes are modelled as `Dispatch.Report` values.
- Concurrency between completion events, ticks and clicks. Every handler is an atomic, single-threaded step.
- The `sender as ToggleButton` null checks. Handlers are attached only to grid cells, so the sender is always a cell. Three-state (`null`) `IsChecked` values are not used by the window and are not modelled.
- A left click toggles a cell through `ToggleButton`'s own click behaviour, not through code in the window. It is modelled as `Toggle`.
- PianoRoll.Window.PlayOneNote: assumes that constructing a `MediaPlayer` (`MainWindow.xaml.cs:195`) never throws. In the source such an exception would be reported as a playback error with nothing appended. `Host.starts` covers only `Open` and `Play`.
- PianoRoll.Window.Tick: does not return the per-note reports (message boxes in the source). They are fixed by `Dispatch.Outcome` of each triggered note.
