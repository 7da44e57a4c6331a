/**
 * The server's shared state and the two handlers that change it: `post`
 * (src/main.rs:122-189) and `add_user` (src/main.rs:191-218). Each handler
 * runs as one sequential update; the `RwLock` retry loops around each
 * collection are left out.
 */
module ServerState {
  import opened Common
  import opened Text
  import opened Admission
  import Periodicity

  /** Some entry of `entries` occurs inside `s` (`vec.iter().any(|e| s.contains(e))`). */
  predicate SomeEntryIn(entries: seq<string>, s: string)
    ensures s in entries ==> SomeEntryIn(entries, s)
    ensures SomeEntryIn(entries, s) ==> entries != []
  {
    ContainsSelf(s);
    exists e :: e in entries && Contains(s, e)
  }

  /** Some key of `saved` occurs inside `room` (`hashmap.keys().any(|e| room.contains(e))`). */
  predicate SomeKeyIn(saved: map<string, seq<Form>>, room: string)
    ensures room in saved ==> SomeKeyIn(saved, room)
    ensures SomeKeyIn(saved, room) ==> saved != map[]
  {
    ContainsSelf(room);
    exists k :: k in saved && Contains(room, k)
  }

  /** The room list after a post to `room` (src/main.rs:151-158). */
  function ListRoom(rooms: seq<string>, room: string): (after: seq<string>)
    ensures rooms <= after && |after| <= |rooms| + 1
    ensures SomeEntryIn(after, room)
  {
    ContainsSelf(room);
    assert room in rooms + [room];
    if SomeEntryIn(rooms, room) then rooms else rooms + [room]
  }

  /** The message the server puts at the head of a new room's log. */
  function Welcome(room: string): (w: Form)
    ensures w.room == room
    ensures StartsWith(w.message, "Welcome to ") && w.message[11..] == room
  {
    Form(room, "System", "Welcome to " + room, "hash")
  }

  /**
   * The saved-message map after `f` is saved (src/main.rs:160-180);
   * `None` is the panic of `get_mut(room).unwrap()`.
   */
  function SaveMessage(saved: map<string, seq<Form>>, f: Form): (r: Option<map<string, seq<Form>>>)
    ensures r.Some? ==> r.value.Keys == saved.Keys + {f.room} && |r.value[f.room]| >= 1 && r.value[f.room][|r.value[f.room]| - 1] == f
    ensures r.None? ==> f.room !in saved
  {
    if !SomeKeyIn(saved, f.room) then Some(saved[f.room := [Welcome(f.room), f]])
    else if f.room in saved then Some(saved[f.room := saved[f.room] + [f]])
    else None
  }

  /** The first index of `x` in `s` (`iter().position(|r| r == x)`). */
  function IndexOf(s: seq<string>, x: string): (r: Option<nat>)
    ensures r.None? <==> x !in s
    ensures r.Some? ==> r.value < |s| && s[r.value] == x && forall j :: 0 <= j < r.value ==> s[j] != x
  {
    if s == [] then None
    else if s[0] == x then Some(0)
    else match IndexOf(s[1..], x)
      case None => None
      case Some(i) => Some(i + 1)
  }

  /** The user list after `add_user(from, to)` (src/main.rs:198-217). */
  function Rename(users: seq<string>, from: string, to: string): (after: seq<string>)
    ensures |after| == |users| || |after| == |users| + 1
    ensures after != users ==> after[|after| - 1] == to
  {
    if from == to then users
    else if SomeEntryIn(users, from) then
      match IndexOf(users, from)
      case None => users
      case Some(i) => users[..i] + users[i + 1..] + [to]
    else users + [to]
  }

  /** What a request to `post` ends in. */
  datatype PostOutcome =
    | Unprocessable          // Rocket rejects the form; the handler never runs
    | SavePanic              // `unwrap` at src/main.rs:176 panics; the room list is already updated
    | Saved(verdict: Verdict) // the message is saved, then broadcast, withheld, or `check_repeats` panics

  class ChatServer {
    /** `Rooms::users`, the room list. */
    var rooms: seq<string>
    /** `SavedMessages::map`, the per-room message logs. */
    var saved: map<string, seq<Form>>
    /** `Users::users`, the registered user names. */
    var users: seq<string>
    /** Every message handed to the broadcast queue, oldest first. */
    var broadcasts: seq<Form>

    /** The managed state as `rocket()` sets it up (src/main.rs:262-272). */
    constructor ()
      ensures rooms == ["lobby"] && saved == map[] && users == [] && broadcasts == []
    {
      rooms := ["lobby"];
      saved := map[];
      users := [];
      broadcasts := [];
    }

    /** The `post` handler. */
    method Post(form: Form) returns (outcome: PostOutcome)
      modifies this
      ensures users == old(users)
      ensures !ValidForm(form) ==> outcome == Unprocessable && rooms == old(rooms) && saved == old(saved) && broadcasts == old(broadcasts)
      ensures ValidForm(form) ==> rooms == ListRoom(old(rooms), form.room)
      ensures ValidForm(form) && SaveMessage(old(saved), form).None? ==>
        outcome == SavePanic && saved == old(saved) && broadcasts == old(broadcasts)
      ensures ValidForm(form) && SaveMessage(old(saved), form).Some? ==>
        && saved == SaveMessage(old(saved), form).value
        && outcome == Saved(Admit(form))
        && broadcasts == old(broadcasts) + (if Admit(form) == Broadcast then [form] else [])
    {
      if !ValidForm(form) {
        return Unprocessable;
      }
      var room := form.room;

      if !SomeEntryIn(rooms, room) {
        rooms := rooms + [room];
      }

      if !SomeKeyIn(saved, room) {
        saved := saved[room := [Welcome(room), form]];
      } else if room in saved {
        saved := saved[room := saved[room] + [form]];
      } else {
        return SavePanic;
      }
      assert saved == SaveMessage(old(saved), form).value;

      var verdict := Screen(form);
      if verdict == Broadcast {
        broadcasts := broadcasts + [form];
      }
      outcome := Saved(verdict);
    }

    /** The `add_user` handler. */
    method AddUser(oldUsername: string, newUsername: string)
      modifies this
      ensures users == Rename(old(users), oldUsername, newUsername)
      ensures rooms == old(rooms) && saved == old(saved) && broadcasts == old(broadcasts)
    {
      if oldUsername == newUsername {
        return;
      }
      if SomeEntryIn(users, oldUsername) {
        var position := IndexOf(users, oldUsername);
        if position.None? {
          return;
        }
        users := users[..position.value] + users[position.value + 1..];
        users := users + [newUsername];
      } else {
        users := users + [newUsername];
      }
    }
  }

  // ---- Properties of the room list ----

  /** No entry of the list occurs inside a later one. */
  predicate NoEarlierInLater(rooms: seq<string>) {
    forall i, j :: 0 <= i < j < |rooms| ==> !Contains(rooms[j], rooms[i])
  }

  /** A post adds at most one entry, at the end, and only when no entry occurs inside its room. */
  lemma ListRoomSpec(rooms: seq<string>, room: string)
    ensures ListRoom(rooms, room) == rooms + [room] <==> !SomeEntryIn(rooms, room)
    ensures ListRoom(rooms, room) == rooms <==> SomeEntryIn(rooms, room)
    ensures NoEarlierInLater(rooms) ==> NoEarlierInLater(ListRoom(rooms, room))
  {
    assert rooms + [room] != rooms by { assert |rooms + [room]| != |rooms|; }
  }

  /** A list in which no entry occurs inside a later one has no duplicates. */
  lemma NoEarlierInLaterDistinct(rooms: seq<string>)
    requires NoEarlierInLater(rooms)
    ensures forall i, j :: 0 <= i < j < |rooms| ==> rooms[i] != rooms[j]
  {
    forall i, j | 0 <= i < j < |rooms| ensures rooms[i] != rooms[j] {
      ContainsSelf(rooms[j]);
    }
  }

  /** The room list after the posts to `posted`, in order, starting from `rocket()`'s `["lobby"]`. */
  function RoomsAfter(posted: seq<string>): seq<string> {
    if posted == [] then ["lobby"] else ListRoom(RoomsAfter(posted[..|posted| - 1]), posted[|posted| - 1])
  }

  /**
   * Whatever rooms are posted to, the list starts with "lobby", never holds
   * an exact duplicate, and never lists another room whose name contains
   * "lobby".
   */
  lemma {:induction false} RoomsAfterInvariant(posted: seq<string>)
    ensures |RoomsAfter(posted)| >= 1 && RoomsAfter(posted)[0] == "lobby"
    ensures NoEarlierInLater(RoomsAfter(posted))
    ensures forall i, j :: 0 <= i < j < |RoomsAfter(posted)| ==> RoomsAfter(posted)[i] != RoomsAfter(posted)[j]
    ensures forall i :: 1 <= i < |RoomsAfter(posted)| ==> !Contains(RoomsAfter(posted)[i], "lobby")
  {
    if posted != [] {
      var before := RoomsAfter(posted[..|posted| - 1]);
      RoomsAfterInvariant(posted[..|posted| - 1]);
      ListRoomSpec(before, posted[|posted| - 1]);
    }
    NoEarlierInLaterDistinct(RoomsAfter(posted));
  }

  // ---- Properties of the saved-message map ----

  /**
   * Saving succeeds unless some key occurs inside the room while the room
   * itself is not a key; on success exactly the room's log changes, by
   * gaining the message at its end (after a welcome line when the log is new).
   */
  lemma SaveMessageSpec(saved: map<string, seq<Form>>, f: Form)
    ensures SaveMessage(saved, f).None? <==> SomeKeyIn(saved, f.room) && f.room !in saved
    ensures SaveMessage(saved, f).Some? ==>
      var after := SaveMessage(saved, f).value;
      && after.Keys == saved.Keys + {f.room}
      && after[f.room] == (if f.room in saved then saved[f.room] else [Welcome(f.room)]) + [f]
      && forall k :: k in saved && k != f.room ==> after[k] == saved[k]
  {
    if f.room in saved {
      ContainsSelf(f.room);
      assert SomeKeyIn(saved, f.room);
    }
  }

  /** Every log opens with its own room's welcome line and holds only messages posted to that room. */
  predicate WellFormedLogs(saved: map<string, seq<Form>>) {
    forall k :: k in saved ==>
      && |saved[k]| >= 2
      && saved[k][0] == Welcome(k)
      && forall j :: 1 <= j < |saved[k]| ==> saved[k][j].room == k
  }

  lemma SaveKeepsLogsWellFormed(saved: map<string, seq<Form>>, f: Form)
    requires WellFormedLogs(saved)
    requires SaveMessage(saved, f).Some?
    ensures WellFormedLogs(SaveMessage(saved, f).value)
  {
    SaveMessageSpec(saved, f);
    var after := SaveMessage(saved, f).value;
    forall k | k in after
      ensures |after[k]| >= 2 && after[k][0] == Welcome(k) && forall j :: 1 <= j < |after[k]| ==> after[k][j].room == k
    {
      if k == f.room && k in saved {
        assert after[k] == saved[k] + [f];
      }
    }
  }

  // ---- Properties of the user list ----

  /** The four cases of `add_user`. */
  lemma RenameSpec(users: seq<string>, from: string, to: string)
    ensures from == to ==> Rename(users, from, to) == users
    ensures from != to && from in users ==>
      var i := IndexOf(users, from).value;
      && Rename(users, from, to) == users[..i] + users[i + 1..] + [to]
      && multiset(Rename(users, from, to)) == multiset(users) - multiset{from} + multiset{to}
    ensures from != to && !SomeEntryIn(users, from) ==> Rename(users, from, to) == users + [to]
    ensures from != to && SomeEntryIn(users, from) && from !in users ==> Rename(users, from, to) == users
  {
    if from != to && from in users {
      ContainsSelf(from);
      assert SomeEntryIn(users, from);
      RemoveAtMultiset(users, IndexOf(users, from).value);
    }
  }

  lemma RemoveAtMultiset(s: seq<string>, i: nat)
    requires i < |s|
    ensures multiset(s[..i] + s[i + 1..]) == multiset(s) - multiset{s[i]}
  {
    assert s == s[..i] + [s[i]] + s[i + 1..];
  }
}
