/**
 * The browser client (static/script.js): the room store kept on `STATE`,
 * the rendered message rows and the global `id` counter, the handlers of
 * the event stream (message, open, error) and of the two forms.
 *
 * `STATE` is one JavaScript object: the room logs live beside its `room`,
 * `rooms` and `connected` properties and its inherited `Object.prototype`
 * members, so a room may share a name with any of them. The model keeps
 * that single namespace.
 */
module Client {
  import opened Common
  import opened Text
  import Admission

  /** One entry of a room log, `{ username, message }`. */
  datatype LogEntry = LogEntry(username: string, message: string)

  /** The values a property of `STATE` takes. */
  datatype JsValue =
    | JsString(s: string)
    | JsBool(b: bool)
    | JsObject                    // `{}`, or a function inherited from `Object.prototype`
    | JsArray(log: seq<LogEntry>) // a room log
    | JsUndefined

  /** JavaScript truthiness. */
  predicate Truthy(v: JsValue)
    ensures v.JsArray? || v.JsObject? ==> Truthy(v)
    ensures v.JsUndefined? ==> !Truthy(v)
  {
    match v
    case JsString(s) => s != ""
    case JsBool(b) => b
    case JsObject => true
    case JsArray(_) => true
    case JsUndefined => false
  }

  /** Property names every plain object inherits from `Object.prototype`. */
  const ObjectPrototypeKeys: set<string> := {
    "constructor", "hasOwnProperty", "isPrototypeOf", "propertyIsEnumerable",
    "toLocaleString", "toString", "valueOf", "__proto__",
    "__defineGetter__", "__defineSetter__", "__lookupGetter__", "__lookupSetter__"
  }

  /** `STATE[name]`: an own property, else an inherited member, else `undefined`. */
  function Lookup(state: map<string, JsValue>, name: string): (v: JsValue)
    ensures name in state ==> v == state[name]
    ensures name !in state ==> (Truthy(v) <==> name in ObjectPrototypeKeys)
  {
    if name in state then state[name]
    else if name in ObjectPrototypeKeys then JsObject
    else JsUndefined
  }

  /**
   * A rendered `.message` row: its `.id`, `.username` and `.text`. The
   * colour of the user name is `HashColour.Colour(username)`, a function of
   * the name alone, so the row does not store it.
   */
  datatype Row = Row(id: nat, username: string, text: string)

  /** The rows `changeRoom` renders for `log`, numbered from `first`. */
  function Rendered(log: seq<LogEntry>, first: nat): (rows: seq<Row>)
    ensures |rows| == |log|
    ensures forall i :: 0 <= i < |log| ==> rows[i] == Row(first + i, log[i].username, log[i].message)
  {
    if log == [] then []
    else
      var last := log[|log| - 1];
      Rendered(log[..|log| - 1], first) + [Row(first + |log| - 1, last.username, last.message)]
  }


  predicate IdsIncreasing(rows: seq<Row>) {
    forall i, j :: 0 <= i < j < |rows| ==> rows[i].id < rows[j].id
  }

  predicate IdsBelow(rows: seq<Row>, next: nat) {
    forall i :: 0 <= i < |rows| ==> rows[i].id < next
  }

  predicate DistinctIds(rows: seq<Row>) {
    forall i, j :: 0 <= i < j < |rows| ==> rows[i].id != rows[j].id
  }

  // ---- Inbound dispatch ----

  /** How the `message` listener treats a text (the `startsWith` chain at static/script.js:118-165). */
  datatype Directive = Remove | ToggleDebug | Clear | Store

  function Classify(text: string): (d: Directive)
    ensures d != Store ==> StartsWith(text, "/")
  {
    if StartsWith(text, "/remove") then StartsWithTransitive(text, "/remove", "/"); Remove
    else if StartsWith(text, "/debug") then StartsWithTransitive(text, "/debug", "/"); ToggleDebug
    else if StartsWith(text, "/clear") then StartsWithTransitive(text, "/clear", "/"); Clear
    else Store
  }

  /** `/remove_range` is taken for `/remove`. */
  lemma ClassifyPrefixes(text: string)
    ensures StartsWith(text, "/remove_range") ==> Classify(text) == Remove
  {
    if StartsWith(text, "/remove_range") { StartsWithTransitive(text, "/remove_range", "/remove"); }
  }

  /**
   * The server never broadcasts a text that starts with `/`, so every
   * message it pushes reaches the client as `Store`: the three directives
   * cannot arrive from this server.
   */
  lemma BroadcastsAreStored(f: Admission.Form)
    requires Admission.Admit(f) == Admission.Broadcast
    ensures Classify(f.message) == Store
  {
    Admission.BroadcastIff(f);
    ClassifyPrefixes(f.message);
  }

  /** `msg.message.split(' ')[1]`, or `None` for `undefined`. */
  function SecondField(text: string): (arg: Option<string>)
    ensures arg.None? <==> CountOf(text, ' ') == 0
    ensures arg.Some? ==> forall i :: 0 <= i < |arg.value| ==> arg.value[i] != ' '
  {
    var parts := Split(text, ' ');
    if |parts| > 1 then Some(parts[1]) else None
  }

  /** `node[i].textContent == args[1]`: the row's id, printed in decimal, equals the argument. */
  predicate Matches(r: Row, arg: Option<string>)
    ensures Matches(r, arg) ==> arg.Some? && IsNumeral(arg.value) && ParseDecimal(arg.value) == r.id
  {
    DecimalRoundTrip(r.id);
    arg.Some? && Decimal(r.id) == arg.value
  }

  lemma MatchesSameId(a: Row, b: Row, arg: Option<string>)
    requires Matches(a, arg) && Matches(b, arg)
    ensures a.id == b.id
  {
    DecimalInjective(a.id, b.id);
  }

  /** The rows that do not match, in order. */
  function Unmatched(rows: seq<Row>, arg: Option<string>): (kept: seq<Row>)
    ensures forall r :: r in kept <==> r in rows && !Matches(r, arg)
  {
    if rows == [] then []
    else (if Matches(rows[0], arg) then [] else [rows[0]]) + Unmatched(rows[1..], arg)
  }

  /** Dropping rows keeps the ids increasing. */
  lemma {:induction false} UnmatchedIncreasing(rows: seq<Row>, arg: Option<string>)
    requires IdsIncreasing(rows)
    ensures IdsIncreasing(Unmatched(rows, arg))
  {
    if rows != [] {
      var tail := rows[1..];
      UnmatchedIncreasing(tail, arg);
      if !Matches(rows[0], arg) {
        var rest := Unmatched(tail, arg);
        forall x | x in rest ensures rows[0].id < x.id {
          var b :| 0 <= b < |tail| && tail[b] == x;
          assert rows[b + 1] == x;
        }
        ConsIncreasing(rows[0], rest);
      }
    }
  }

  lemma UnmatchedBelow(rows: seq<Row>, arg: Option<string>, next: nat)
    requires IdsBelow(rows, next)
    ensures IdsBelow(Unmatched(rows, arg), next)
  {
    var kept := Unmatched(rows, arg);
    forall j | 0 <= j < |kept| ensures kept[j].id < next {
      assert kept[j] in rows;
    }
  }

  lemma ConsIncreasing(r: Row, rest: seq<Row>)
    requires IdsIncreasing(rest) && forall x :: x in rest ==> r.id < x.id
    ensures IdsIncreasing([r] + rest)
  {
    var kept := [r] + rest;
    forall a, b | 0 <= a < b < |kept| ensures kept[a].id < kept[b].id {
      assert kept[b] == rest[b - 1];
      if a > 0 {
        assert kept[a] == rest[a - 1];
      }
    }
  }

  /**
   * The rows left by the loop at static/script.js:122-126. It walks the live
   * `getElementsByClassName('id')` collection by index: removing a row
   * shifts the next one into the current index, which the loop then steps past.
   */
  function LiveRemove(rows: seq<Row>, arg: Option<string>): (left: seq<Row>)
    ensures |left| <= |rows|
    ensures forall r :: r in left ==> r in rows
    decreases |rows|
  {
    if rows == [] then []
    else if Matches(rows[0], arg) then (if |rows| == 1 then [] else [rows[1]] + LiveRemove(rows[2..], arg))
    else [rows[0]] + LiveRemove(rows[1..], arg)
  }

  /** When no two rows share an id, the skipped row can never have matched: exactly the matching rows go. */
  lemma {:induction false} LiveRemoveDistinct(rows: seq<Row>, arg: Option<string>)
    requires DistinctIds(rows)
    ensures LiveRemove(rows, arg) == Unmatched(rows, arg)
    decreases |rows|
  {
    if rows != [] {
      if Matches(rows[0], arg) {
        if |rows| > 1 {
          assert rows[0].id != rows[1].id;
          if Matches(rows[1], arg) { MatchesSameId(rows[0], rows[1], arg); }
          var tail := rows[2..];
          forall r | r in tail ensures !Matches(r, arg) {
            var j :| 0 <= j < |tail| && tail[j] == r;
            assert rows[0].id != rows[j + 2].id;
            if Matches(r, arg) { MatchesSameId(rows[0], r, arg); }
          }
          NoMatchUnmatched(tail, arg);
          NoMatchUnmatched(rows[1..], arg);
          NoMatchLiveRemove(tail, arg);
        }
      } else {
        LiveRemoveDistinct(rows[1..], arg);
      }
    }
  }

  lemma {:induction false} NoMatchUnmatched(rows: seq<Row>, arg: Option<string>)
    requires forall r :: r in rows ==> !Matches(r, arg)
    ensures Unmatched(rows, arg) == rows
  {
    if rows != [] {
      assert forall r :: r in rows[1..] ==> r in rows;
      NoMatchUnmatched(rows[1..], arg);
    }
  }

  lemma {:induction false} NoMatchLiveRemove(rows: seq<Row>, arg: Option<string>)
    requires forall r :: r in rows ==> !Matches(r, arg)
    ensures LiveRemove(rows, arg) == rows
  {
    if rows != [] {
      assert forall r :: r in rows[1..] ==> r in rows;
      NoMatchLiveRemove(rows[1..], arg);
    }
  }

  function Min(a: int, b: int): int {
    if a < b then a else b
  }

  /** What the `/remove` loop leaves when it has reached index `i` of `rows`. */
  function Walked(rows: seq<Row>, i: nat, arg: Option<string>): seq<Row> {
    var j := Min(i, |rows|);
    rows[..j] + LiveRemove(rows[j..], arg)
  }

  /** One turn of the `/remove` loop keeps what it will leave. */
  lemma WalkStep(rows: seq<Row>, i: nat, arg: Option<string>)
    requires i < |rows|
    ensures Matches(rows[i], arg) ==> Walked(rows, i, arg) == Walked(rows[..i] + rows[i + 1..], i + 1, arg)
    ensures !Matches(rows[i], arg) ==> Walked(rows, i, arg) == Walked(rows, i + 1, arg)
  {
    if Matches(rows[i], arg) {
      WalkRemoves(rows, i, arg);
    } else {
      WalkSkips(rows, i, arg);
    }
  }

  /** A matching row is removed and the row shifted into its place is stepped over. */
  lemma WalkRemoves(rows: seq<Row>, i: nat, arg: Option<string>)
    requires i < |rows| && Matches(rows[i], arg)
    ensures Walked(rows, i, arg) == Walked(rows[..i] + rows[i + 1..], i + 1, arg)
  {
    var rest := rows[i..];
    assert rest[0] == rows[i] && rest[1..] == rows[i + 1..];
    var shorter := rows[..i] + rows[i + 1..];
    if i + 1 < |rows| {
      assert rest[2..] == rows[i + 2..];
      assert shorter[..i + 1] == rows[..i] + [rows[i + 1]];
      assert shorter[i + 1..] == rows[i + 2..];
    } else {
      assert shorter[..i] == rows[..i] && shorter[i..] == [];
    }
  }

  /** A row that does not match is kept and the walk moves on. */
  lemma WalkSkips(rows: seq<Row>, i: nat, arg: Option<string>)
    requires i < |rows| && !Matches(rows[i], arg)
    ensures Walked(rows, i, arg) == Walked(rows, i + 1, arg)
  {
    var rest := rows[i..];
    assert rest[0] == rows[i] && rest[1..] == rows[i + 1..];
    assert rows[..i + 1] == rows[..i] + [rows[i]];
  }

  /** The `/remove` loop over the rendered rows. */
  method RemoveRendered(view: seq<Row>, arg: Option<string>) returns (remaining: seq<Row>)
    ensures remaining == LiveRemove(view, arg)
    ensures DistinctIds(view) ==> remaining == Unmatched(view, arg)
  {
    remaining := view;
    var i := 0;
    assert view[..0] == [] && view[0..] == view;
    while i < |remaining|
      invariant 0 <= i <= |remaining| + 1
      invariant LiveRemove(view, arg) == Walked(remaining, i, arg)
    {
      WalkStep(remaining, i, arg);
      if Matches(remaining[i], arg) {
        remaining := remaining[..i] + remaining[i + 1..];
      }
      i := i + 1;
    }
    assert remaining[..|remaining|] == remaining && remaining[|remaining|..] == [];
    if DistinctIds(view) {
      LiveRemoveDistinct(view, arg);
    }
  }

  // ---- Reconnect backoff ----

  /** `Math.min(64, retryTime * 2)`. */
  function NextDelay(delay: nat): (next: nat)
    ensures IsDelay(delay) ==> IsDelay(next) && delay <= next
  {
    if delay * 2 < 64 then delay * 2 else 64
  }

  /** The values `retryTime` takes: 1, 2, 4, ..., 64. */
  predicate IsDelay(d: nat) {
    d == 1 || d == 2 || d == 4 || d == 8 || d == 16 || d == 32 || d == 64
  }

  function Pow2(n: nat): nat {
    if n == 0 then 1 else 2 * Pow2(n - 1)
  }

  /** `retryTime` after `errors` error events with no open event in between, starting from 1. */
  function DelayAfter(errors: nat): nat {
    if errors == 0 then 1 else NextDelay(DelayAfter(errors - 1))
  }

  /** Consecutive failures wait 1, 2, 4, 8, 16, 32 seconds and then 64 seconds every time. */
  lemma {:induction false} BackoffSchedule(errors: nat)
    ensures DelayAfter(errors) == if errors < 6 then Pow2(errors) else 64
  {
    if errors > 0 {
      BackoffSchedule(errors - 1);
      if errors < 6 {
        assert Pow2(errors) == 2 * Pow2(errors - 1);
        assert Pow2(errors - 1) <= 16 by {
          assert Pow2(0) == 1 && Pow2(1) == 2 && Pow2(2) == 4 && Pow2(3) == 8 && Pow2(4) == 16;
        }
      } else if errors == 6 {
        assert Pow2(5) == 32 by {
          assert Pow2(1) == 2 && Pow2(2) == 4 && Pow2(3) == 8 && Pow2(4) == 16;
        }
      }
    }
  }

  // ---- Requests the form handler issues ----

  /** The two `fetch` calls of the submit handler. */
  datatype Request =
    | RegisterUser(oldUsername: string, newUsername: string) // POST /user
    | PostMessage(room: string, username: string, message: string) // POST /message

  /** The record of one `message` event: `JSON.parse(ev.data)`. The client never reads `color`. */
  datatype Event = Event(room: string, username: string, message: string, color: string)

  /** `usernameField.value || "guest"`. */
  function NameOrGuest(value: string): (name: string)
    ensures name != ""
    ensures value != "" ==> name == value
  {
    if value == "" then "guest" else value
  }

  // ---- The shape every handler keeps ----

  /**
   * `STATE.room` is a non-empty name, `STATE.rooms` the object literal,
   * `STATE.connected` a flag (or, once a room named "connected" has taken
   * it over, a log), and every other own property a room log.
   */
  predicate StoreShape(state: map<string, JsValue>) {
    && "room" in state && state["room"].JsString? && state["room"].s != ""
    && "rooms" in state && state["rooms"] == JsObject
    && "connected" in state && (state["connected"].JsBool? || state["connected"].JsArray?)
    && forall k :: k in state && k != "room" && k != "rooms" && k != "connected" ==> state[k].JsArray?
  }

  /** `STATE.room`. */
  function Active(state: map<string, JsValue>): string
    requires StoreShape(state)
  {
    state["room"].s
  }

  /** No list entry is named "", "room" or "rooms": `addRoom` never lists a name whose property is truthy. */
  predicate ListShape(listed: seq<string>) {
    "" !in listed && "room" !in listed && "rooms" !in listed
  }

  /** Row ids increase down the page and stay below the counter. */
  predicate ViewShape(view: seq<Row>, next: nat) {
    IdsIncreasing(view) && IdsBelow(view, next)
  }

  /** Writing a key twice around a write to another key keeps only the second value. */
  lemma UpdateTwice(m: map<string, JsValue>, a: string, b: string, x: JsValue, y: JsValue, z: JsValue)
    requires a != b
    ensures m[a := x][b := y][a := z] == m[a := z][b := y]
  {
  }

  /** `changeRoom(name)` gets past its two early returns. */
  predicate CanSwitch(state: map<string, JsValue>, listed: seq<string>, name: string) {
    "room" in state && state["room"].JsString?
    && state["room"].s != name && name in listed && state["room"].s in listed
  }

  class ChatClient {
    /** The own properties of `STATE`. */
    var state: map<string, JsValue>
    /** The `data-name` of each entry of the room list, in document order. */
    var listed: seq<string>
    /** The rendered `.message` rows, in document order. */
    var view: seq<Row>
    /** The global `id`: the number the next rendered row gets. */
    var id: nat
    var oldUsername: string
    var debug: bool
    /** `retryTime` of `subscribe`. */
    var retryTime: nat

    /** The shape `STATE`, the room list and the view keep under every handler. */
    ghost predicate WellFormed()
      reads this
    {
      StoreShape(state) && ListShape(listed) && ViewShape(view, id) && IsDelay(retryTime)
    }

    /** After `init()`: well-formed, and the active room has a list entry. */
    ghost predicate Valid()
      reads this
    {
      WellFormed() && Active(state) in listed
    }

    /** `if (STATE.connected)`. */
    predicate Connected()
      reads this
      ensures "connected" in state && state["connected"].JsBool? ==> (Connected() <==> state["connected"].b)
      ensures "connected" in state && state["connected"].JsArray? ==> Connected()
    {
      Truthy(Lookup(state, "connected"))
    }

    /** What `changeRoom(name)` did. */
    twostate predicate RoomChanged(name: string, thrown: bool)
      reads this
    {
      && listed == old(listed) && debug == old(debug) && oldUsername == old(oldUsername) && retryTime == old(retryTime)
      && if !CanSwitch(old(state), old(listed), name) then
           state == old(state) && view == old(view) && id == old(id) && !thrown
         else
           && state == old(state)["room" := JsString(name)]
           && match Lookup(old(state), name)
              case JsArray(log) => !thrown && view == Rendered(log, old(id)) && id == old(id) + |log|
              case _ => thrown && view == [] && id == old(id)
    }

    /** What `addMessage(room, username, message, push)` did. */
    twostate predicate MessageAdded(room: string, username: string, message: string, push: bool, thrown: bool)
      reads this
    {
      && listed == old(listed) && debug == old(debug) && oldUsername == old(oldUsername) && retryTime == old(retryTime)
      && (thrown <==> push && !Lookup(old(state), room).JsArray?)
      && (thrown ==> state == old(state) && view == old(view) && id == old(id))
      && (!thrown ==>
           && state == (if push then old(state)[room := JsArray(Lookup(old(state), room).log + [LogEntry(username, message)])] else old(state))
           && if "room" in old(state) && old(state)["room"] == JsString(room) then
                view == old(view) + [Row(old(id), username, message)] && id == old(id) + 1
              else
                view == old(view) && id == old(id))
    }

    /** The page's globals before `init()` runs (static/script.js:13-21); `retryTime` starts at 1 (108). */
    constructor ()
      ensures WellFormed()
      ensures state == map["room" := JsString("lobby"), "rooms" := JsObject, "connected" := JsBool(false)]
      ensures listed == [] && view == [] && id == 0
      ensures oldUsername == "" && !debug && retryTime == 1
    {
      state := map["room" := JsString("lobby"), "rooms" := JsObject, "connected" := JsBool(false)];
      listed := [];
      view := [];
      id := 0;
      oldUsername := "";
      debug := false;
      retryTime := 1;
    }

    /** The first three calls of `init()`, on the globals the page starts with. */
    method Init()
      requires WellFormed()
      requires state == map["room" := JsString("lobby"), "rooms" := JsObject, "connected" := JsBool(false)]
      requires listed == [] && view == [] && id == 0
      modifies this
      ensures Valid()
      ensures state == old(state)["lobby" := JsArray([LogEntry("System", "Welcome to the chat!")])]
      ensures listed == ["lobby"]
      ensures view == [Row(0, "System", "Welcome to the chat!")] && id == 1
      ensures oldUsername == old(oldUsername) && debug == old(debug) && retryTime == old(retryTime)
    {
      var created, thrown := AddRoom("lobby");
      thrown := ChangeRoom("lobby");
      ghost var welcome := LogEntry("System", "Welcome to the chat!");
      thrown := AddMessage("lobby", "System", "Welcome to the chat!", true);
      assert [] + [welcome] == [welcome];
    }

    /** `addMessage`. */
    method AddMessage(room: string, username: string, message: string, push: bool) returns (thrown: bool)
      requires WellFormed()
      modifies this
      ensures WellFormed() && Active(state) == old(Active(state))
      ensures MessageAdded(room, username, message, push, thrown)
    {
      thrown := false;
      if push {
        var entries := Lookup(state, room);
        if !entries.JsArray? {
          // `STATE[room].push` on something that is not an array: a TypeError
          return true;
        }
        state := state[room := JsArray(entries.log + [LogEntry(username, message)])];
      }
      if Active(state) == room {
        view := view + [Row(id, username, message)];
        id := id + 1;
      }
    }

    /** `changeRoom`. */
    method ChangeRoom(name: string) returns (thrown: bool)
      requires WellFormed()
      modifies this
      ensures WellFormed()
      ensures Active(state) == old(Active(state)) || (Active(state) == name && name in listed)
      ensures RoomChanged(name, thrown)
    {
      thrown := false;
      if Active(state) == name {
        return;
      }
      if !(name in listed && Active(state) in listed) {
        // `querySelector` finds no entry for one of the two rooms
        return;
      }
      var entries := Lookup(state, name);
      state := state["room" := JsString(name)];
      view := [];
      if !entries.JsArray? {
        // `STATE[name].forEach` on something that is not an array: a TypeError
        return true;
      }
      var log := entries.log;
      ghost var id0 := id;
      var k := 0;
      while k < |log|
        invariant 0 <= k <= |log|
        invariant state == old(state)["room" := JsString(name)]
        invariant listed == old(listed) && debug == old(debug) && oldUsername == old(oldUsername) && retryTime == old(retryTime)
        invariant view == Rendered(log[..k], id0) && id == id0 + k
        invariant WellFormed()
      {
        var t := AddMessage(name, log[k].username, log[k].message, false);
        assert log[..k + 1][..k] == log[..k];
        k := k + 1;
      }
      assert log[..|log|] == log;
    }

    /** `addRoom`: returns whether a new log was created. */
    method AddRoom(name: string) returns (created: bool, thrown: bool)
      requires WellFormed() && name != ""
      modifies this
      ensures WellFormed()
      ensures old(Valid()) ==> Valid()
      ensures created <==> !Truthy(Lookup(old(state), name))
      ensures !created ==> RoomChanged(name, thrown)
      ensures created ==> !thrown && listed == old(listed) + [name]
      ensures created ==> debug == old(debug) && oldUsername == old(oldUsername) && retryTime == old(retryTime)
      ensures created && CanSwitch(old(state), old(listed) + [name], name) ==>
        state == old(state)[name := JsArray([])]["room" := JsString(name)] && view == [] && id == old(id)
      ensures created && !CanSwitch(old(state), old(listed) + [name], name) ==>
        state == old(state)[name := JsArray([])] && view == old(view) && id == old(id)
    {
      if Truthy(Lookup(state, name)) {
        thrown := ChangeRoom(name);
        return false, thrown;
      }
      listed := listed + [name];
      state := state[name := JsArray([])];
      thrown := ChangeRoom(name);
      created := true;
    }

    /** `setConnectedStatus`. */
    method SetConnectedStatus(status: bool)
      requires WellFormed()
      modifies this
      ensures WellFormed() && Active(state) == old(Active(state))
      ensures state == old(state)["connected" := JsBool(status)]
      ensures Connected() == status
      ensures listed == old(listed) && view == old(view) && id == old(id)
      ensures debug == old(debug) && oldUsername == old(oldUsername) && retryTime == old(retryTime)
    {
      state := state["connected" := JsBool(status)];
    }

    /** The `message` listener of `subscribe`. */
    method OnMessage(msg: Event) returns (thrown: bool)
      requires Valid()
      modifies this
      ensures Valid()
      ensures Classify(msg.message) != Store ==> !thrown && state == old(state) && id == old(id)
      ensures Classify(msg.message) == Remove ==>
        && view == LiveRemove(old(view), SecondField(msg.message))
        && view == Unmatched(old(view), SecondField(msg.message))
        && debug == old(debug)
      ensures Classify(msg.message) == ToggleDebug ==> debug == !old(debug) && view == old(view)
      ensures Classify(msg.message) == Clear ==> view == [] && debug == old(debug)
      ensures Classify(msg.message) == Store ==> MessageAdded(msg.room, msg.username, msg.message, true, thrown)
      ensures listed == old(listed) && oldUsername == old(oldUsername) && retryTime == old(retryTime)
    {
      thrown := false;
      match Classify(msg.message)
      case Remove =>
        var arg := SecondField(msg.message);
        assert DistinctIds(view);
        view := RemoveRendered(view, arg);
        UnmatchedIncreasing(old(view), arg);
        UnmatchedBelow(old(view), arg, id);
      case ToggleDebug =>
        if debug {
          debug := false;
        } else {
          debug := true;
        }
      case Clear =>
        view := [];
      case Store =>
        thrown := AddMessage(msg.room, msg.username, msg.message, true);
    }

    /** The `open` listener of `subscribe`. */
    method OnOpen()
      requires Valid()
      modifies this
      ensures Valid()
      ensures state == old(state)["connected" := JsBool(true)] && Connected()
      ensures retryTime == 1
      ensures view == old(view) + [Row(old(id), "[STATUS]", "connected to event stream")]
      ensures id == old(id) + 1
      ensures listed == old(listed) && debug == old(debug) && oldUsername == old(oldUsername)
    {
      SetConnectedStatus(true);
      var thrown := AddMessage(Active(state), "[STATUS]", "connected to event stream", false);
      retryTime := 1;
    }

    /** The `error` listener of `subscribe`; `timeout` is the delay in seconds handed to `setTimeout`. */
    method OnError() returns (timeout: nat)
      requires Valid()
      modifies this
      ensures Valid()
      ensures state == old(state)["connected" := JsBool(false)] && !Connected()
      ensures timeout == old(retryTime) && retryTime == NextDelay(old(retryTime))
      ensures view == old(view) + [Row(old(id), "[STATUS]", "connection lost. attempting to reconnect in " + Decimal(timeout) + "s")]
      ensures id == old(id) + 1
      ensures listed == old(listed) && debug == old(debug) && oldUsername == old(oldUsername)
    {
      SetConnectedStatus(false);
      timeout := retryTime;
      retryTime := NextDelay(retryTime);
      var thrown := AddMessage(Active(state), "[STATUS]", "connection lost. attempting to reconnect in " + Decimal(timeout) + "s", false);
    }

    /** The `submit` listener of the message form: the requests it issues, in order. */
    method Submit(messageValue: string, usernameValue: string) returns (requests: seq<Request>)
      requires Valid()
      ensures messageValue == "" ==> requests == []
      ensures messageValue != "" ==> |requests| >= 1 && requests[0] == RegisterUser(oldUsername, NameOrGuest(usernameValue))
      ensures messageValue != "" ==> (|requests| == 2 <==> Connected()) && |requests| <= 2
      ensures |requests| == 2 ==> requests[1] == PostMessage(Active(state), NameOrGuest(usernameValue), messageValue)
      ensures forall r :: r in requests ==> (r.RegisterUser? ==> r.newUsername != "") && (r.PostMessage? ==> r.username != "" && r.message != "")
    {
      var room := Active(state);
      var message := messageValue;
      var username := NameOrGuest(usernameValue);
      var newUsername := NameOrGuest(usernameValue);
      if message == "" || username == "" {
        return [];
      }
      requests := [RegisterUser(oldUsername, newUsername)];
      if Connected() {
        requests := requests + [PostMessage(room, username, message)];
      }
    }

    /** The response handler of `POST /user`; `username` and `newUsername` are the values the submit captured. */
    method OnRegisterResponse(ok: bool, username: string, newUsername: string)
      requires Valid()
      modifies this
      ensures Valid()
      ensures oldUsername == (if ok then username else old(oldUsername))
      ensures ok && old(debug) ==>
        && view == old(view) + [Row(old(id), "[STATUS]", "old_username: " + old(oldUsername) + ", new_username: " + newUsername),
                                 Row(old(id) + 1, "[STATUS]", "registered username " + username)]
        && id == old(id) + 2
      ensures ok && !old(debug) ==> view == old(view) && id == old(id)
      ensures !ok ==> view == old(view) + [Row(old(id), "[STATUS]", "failed to register username " + username)] && id == old(id) + 1
      ensures state == old(state) && listed == old(listed) && debug == old(debug) && retryTime == old(retryTime)
    {
      var thrown: bool;
      if ok {
        if debug {
          thrown := AddMessage(Active(state), "[STATUS]", "old_username: " + oldUsername + ", new_username: " + newUsername, false);
        }
        oldUsername := username;
        if debug {
          thrown := AddMessage(Active(state), "[STATUS]", "registered username " + username, false);
        }
      } else {
        thrown := AddMessage(Active(state), "[STATUS]", "failed to register username " + username, false);
      }
    }

    /** The response handler of `POST /message`; returns whether the message field is cleared. */
    method OnPostResponse(ok: bool) returns (clearMessageField: bool)
      requires Valid()
      modifies this
      ensures Valid()
      ensures clearMessageField == ok
      ensures ok ==> view == old(view) && id == old(id)
      ensures !ok ==> view == old(view) + [Row(old(id), "[STATUS]", "failed to send message")] && id == old(id) + 1
      ensures state == old(state) && listed == old(listed) && debug == old(debug) && oldUsername == old(oldUsername) && retryTime == old(retryTime)
    {
      clearMessageField := ok;
      if !ok {
        var thrown := AddMessage(Active(state), "[STATUS]", "failed to send message", false);
      }
    }

    /** The `submit` listener of the new-room form. */
    method NewRoom(name: string) returns (thrown: bool)
      requires Valid()
      modifies this
      ensures Valid()
      ensures name == "" ==> !thrown && state == old(state) && listed == old(listed) && view == old(view) && id == old(id)
      ensures name != "" && !Truthy(Lookup(old(state), name)) ==>
        && !thrown
        && listed == old(listed) + [name]
        && id == old(id) + 1
      ensures name != "" && !Truthy(Lookup(old(state), name)) && name != old(Active(state)) ==>
        && state == old(state)[name := JsArray([LogEntry("System", "Welcome to " + name + "!")])]["room" := JsString(name)]
        && view == [Row(old(id), "System", "Welcome to " + name + "!")]
      ensures name != "" && !Truthy(Lookup(old(state), name)) && name == old(Active(state)) ==>
        && state == old(state)[name := JsArray([LogEntry("System", "Welcome to " + name + "!")])]
        && view == old(view) + [Row(old(id), "System", "Welcome to " + name + "!")]
      ensures name != "" && Truthy(Lookup(old(state), name)) ==> RoomChanged(name, thrown)
      ensures debug == old(debug) && oldUsername == old(oldUsername) && retryTime == old(retryTime)
    {
      if name == "" {
        return false;
      }
      var created;
      created, thrown := AddRoom(name);
      if !created {
        return;
      }
      ghost var welcome := LogEntry("System", "Welcome to " + name + "!");
      ghost var state1, view1 := state, view;
      if name == old(Active(state)) {
        assert view1 == old(view);
      } else {
        assert CanSwitch(old(state), old(listed) + [name], name);
        assert view1 == [];
      }
      assert Lookup(state1, name) == JsArray([]) && state1["room"] == JsString(name);
      thrown := AddMessage(name, "System", "Welcome to " + name + "!", true);
      assert view == view1 + [Row(old(id), "System", "Welcome to " + name + "!")];
      assert [] + [welcome] == [welcome];
      assert state == state1[name := JsArray([welcome])];
      if name != old(Active(state)) {
        UpdateTwice(old(state), name, "room", JsArray([]), JsString(name), JsArray([welcome]));
      }
    }
  }
}
