/**
 * The sample trigger dispatcher's bookkeeping: the list of active players,
 * what triggering a note appends to it, and what a player's completion
 * removes from it.
 */
module Dispatch {
  import opened Samples

  /**
   * What the model takes from the host instead of calling it: whether a
   * sample file exists, and whether opening and starting it returns normally
   * (false stands for an exception thrown by Open or Play).
   */
  datatype Host = Host(fileExists: string -> bool, starts: string -> bool)

  /**
   * One entry of the active-player list: an opaque id standing for the media
   * player object, the note it plays, and whether its completion handler was
   * attached (which happens only once Open and Play have returned).
   */
  datatype Player = Player(id: nat, note: nat, subscribed: bool)

  /** What triggering a note shows the user: nothing, a missing file, or a playback error. */
  datatype Report = Playing(id: nat) | NotFound(file: string) | PlaybackError(file: string)

  /** Ids increase along the list, so no id occurs twice. */
  predicate IdsAscending(ps: seq<Player>)
  {
    forall j, k :: 0 <= j < k < |ps| ==> ps[j].id < ps[k].id
  }

  /** Every id in the list was handed out before `next`. */
  predicate IdsBelow(ps: seq<Player>, next: nat)
  {
    forall k :: 0 <= k < |ps| ==> ps[k].id < next
  }

  /**
   * The entries appended when `note` is triggered and `next` is the next free
   * id: none when the sample file is missing, otherwise one new player, kept
   * in the list whether or not starting it succeeds.
   */
  function Launch(next: nat, note: nat, host: Host): (added: seq<Player>)
    ensures |added| <= 1
    ensures added == [] <==> !host.fileExists(SampleName(note))
    ensures forall p :: p in added ==> p.id == next && p.note == note
    ensures forall p :: p in added ==> (p.subscribed <==> host.starts(SampleName(note)))
  {
    var name := SampleName(note);
    if !host.fileExists(name) then [] else [Player(next, note, host.starts(name))]
  }

  /** What triggering `note` reports when `next` is the next free id. */
  function Outcome(next: nat, note: nat, host: Host): (r: Report)
    ensures r.NotFound? <==> Launch(next, note, host) == []
    ensures r.Playing? <==> Launch(next, note, host) == [Player(next, note, true)]
    ensures r.Playing? ==> r.id == next
    ensures !r.Playing? ==> r.file == SampleName(note)
  {
    var name := SampleName(note);
    if !host.fileExists(name) then NotFound(name)
    else if host.starts(name) then Playing(next)
    else PlaybackError(name)
  }

  /** The entries appended when `notes` are triggered one after another, ids handed out from `next`. */
  function LaunchAll(next: nat, notes: seq<nat>, host: Host): (added: seq<Player>)
    ensures |added| <= |notes|
    ensures forall k :: 0 <= k < |added| ==> added[k].id == next + k
    ensures forall k :: 0 <= k < |added| ==> added[k].note in notes
    decreases |notes|
  {
    if notes == [] then []
    else
      var front := LaunchAll(next, notes[..|notes| - 1], host);
      front + Launch(next + |front|, notes[|notes| - 1], host)
  }

  /** Triggering one more note appends what that note alone adds, with the next id. */
  lemma {:induction false} LaunchAllSnoc(next: nat, notes: seq<nat>, note: nat, host: Host)
    ensures LaunchAll(next, notes + [note], host)
      == LaunchAll(next, notes, host) + Launch(next + |LaunchAll(next, notes, host)|, note, host)
  {
    SnocParts(notes, note);
  }

  lemma SnocParts<T>(s: seq<T>, x: T)
    ensures (s + [x])[..|s|] == s && (s + [x])[|s|] == x && |s + [x]| - 1 == |s|
  {
  }

  /** One more triggered note in a tick extends the appended players by that note's launch. */
  lemma LaunchOneMore(start: seq<Player>, next: nat, notes: seq<nat>, note: nat, host: Host,
                      before: seq<Player>, id: nat, after: seq<Player>)
    requires before == start + LaunchAll(next, notes, host)
    requires id == next + |LaunchAll(next, notes, host)|
    requires after == before + Launch(id, note, host)
    ensures after == start + LaunchAll(next, notes + [note], host)
    ensures |LaunchAll(next, notes + [note], host)|
      == |LaunchAll(next, notes, host)| + |Launch(next + |LaunchAll(next, notes, host)|, note, host)|
  {
    LaunchAllSnoc(next, notes, note, host);
    var done := LaunchAll(next, notes, host);
    var one := Launch(next + |done|, note, host);
    assert start + done + one == start + (done + one);
  }

  /** The notes among `notes` whose sample file exists, in order. */
  function Playable(notes: seq<nat>, host: Host): seq<nat>
    decreases |notes|
  {
    if notes == [] then []
    else
      var last := notes[|notes| - 1];
      Playable(notes[..|notes| - 1], host) + (if host.fileExists(SampleName(last)) then [last] else [])
  }

  /**
   * Triggering a batch adds exactly one player per note whose file exists, in
   * the order of the batch, each subscribed exactly when its start succeeded.
   */
  lemma {:induction false} LaunchAllPlaysPlayable(next: nat, notes: seq<nat>, host: Host)
    ensures |LaunchAll(next, notes, host)| == |Playable(notes, host)|
    ensures forall k :: 0 <= k < |Playable(notes, host)| ==>
      LaunchAll(next, notes, host)[k].note == Playable(notes, host)[k]
    ensures forall k :: 0 <= k < |Playable(notes, host)| ==>
      (LaunchAll(next, notes, host)[k].subscribed <==> host.starts(SampleName(Playable(notes, host)[k])))
    decreases |notes|
  {
    if notes != [] {
      LaunchAllPlaysPlayable(next, notes[..|notes| - 1], host);
    }
  }

  /** When every sample exists, every note of the batch gets a player. */
  lemma {:induction false} PlayableAll(notes: seq<nat>, host: Host)
    requires forall k :: 0 <= k < |notes| ==> host.fileExists(SampleName(notes[k]))
    ensures Playable(notes, host) == notes
    decreases |notes|
  {
    if notes != [] {
      var front := notes[..|notes| - 1];
      PlayableAll(front, host);
      assert notes == front + [notes[|notes| - 1]];
    }
  }

  /** Appending a batch keeps the ids ascending and below the advanced counter. */
  lemma AppendKeepsIds(ps: seq<Player>, next: nat, notes: seq<nat>, host: Host)
    requires IdsAscending(ps) && IdsBelow(ps, next)
    ensures IdsAscending(ps + LaunchAll(next, notes, host))
    ensures IdsBelow(ps + LaunchAll(next, notes, host), next + |LaunchAll(next, notes, host)|)
  {
  }

  /** Whether some entry with this id has its completion handler attached. */
  predicate Subscribed(ps: seq<Player>, id: nat)
  {
    exists k :: 0 <= k < |ps| && ps[k].id == id && ps[k].subscribed
  }

  /** List.Remove: the list without its first entry with this id (unchanged if there is none). */
  function Remove(ps: seq<Player>, id: nat): (r: seq<Player>)
    ensures |r| == |ps| || |r| == |ps| - 1
    ensures forall p :: p in r ==> p in ps
    decreases |ps|
  {
    if ps == [] then []
    else if ps[0].id == id then ps[1..]
    else [ps[0]] + Remove(ps[1..], id)
  }

  /** Removing the first entry with this id, at index `k`, leaves every other entry in its order. */
  lemma {:induction false} RemoveAt(ps: seq<Player>, id: nat, k: nat)
    requires k < |ps| && ps[k].id == id
    requires forall j :: 0 <= j < k ==> ps[j].id != id
    ensures Remove(ps, id) == ps[..k] + ps[k + 1..]
    decreases k
  {
    if k > 0 {
      RemoveAt(ps[1..], id, k - 1);
      assert ps[..k] == [ps[0]] + ps[1..][..k - 1];
      assert ps[k + 1..] == ps[1..][k..];
    }
  }

  /** Removing an id that no entry has changes nothing. */
  lemma {:induction false} RemoveAbsent(ps: seq<Player>, id: nat)
    requires forall k :: 0 <= k < |ps| ==> ps[k].id != id
    ensures Remove(ps, id) == ps
    decreases |ps|
  {
    if ps != [] {
      RemoveAbsent(ps[1..], id);
    }
  }

  /**
   * In a list with ascending ids, completion of the player at index `k`
   * removes exactly that entry: one entry fewer, the other entries in their
   * order, and no entry with that id left.
   */
  lemma RemoveExactlyOne(ps: seq<Player>, k: nat)
    requires IdsAscending(ps) && k < |ps|
    ensures Remove(ps, ps[k].id) == ps[..k] + ps[k + 1..]
    ensures |Remove(ps, ps[k].id)| == |ps| - 1
    ensures forall p :: p in Remove(ps, ps[k].id) ==> p.id != ps[k].id
  {
    forall j | 0 <= j < k ensures ps[j].id != ps[k].id {
      assert ps[j].id < ps[k].id;
    }
    RemoveAt(ps, ps[k].id, k);
    var r := ps[..k] + ps[k + 1..];
    forall p | p in r ensures p.id != ps[k].id {
      var i :| 0 <= i < |r| && r[i] == p;
      if i < k {
        assert r[i] == ps[i];
      } else {
        assert r[i] == ps[i + 1];
      }
    }
  }

  /** Removal keeps the ids ascending and below the counter. */
  lemma {:induction false} RemoveKeepsIds(ps: seq<Player>, id: nat, next: nat)
    requires IdsAscending(ps) && IdsBelow(ps, next)
    ensures IdsAscending(Remove(ps, id)) && IdsBelow(Remove(ps, id), next)
    decreases |ps|
  {
    if ps != [] && ps[0].id != id {
      RemoveKeepsIds(ps[1..], id, next);
      var r := Remove(ps, id);
      forall j, k | 0 <= j < k < |r| ensures r[j].id < r[k].id {
        if j == 0 {
          assert r[k] in ps[1..];
        }
      }
    }
  }

  /**
   * A player whose start threw is never subscribed, so no completion can
   * remove it: it stays in the list.
   */
  lemma FailedStartIsNeverRemoved(ps: seq<Player>, k: nat)
    requires IdsAscending(ps) && k < |ps| && !ps[k].subscribed
    ensures !Subscribed(ps, ps[k].id)
  {
  }
}
