/** The connection registry: for each game id, the live connections registered under
    it with their player names, in registration order. Connection handles are opaque
    identifiers and a send is an append to the outbox. */
module Connections {
  import opened Models

  type Handle = nat

  /** One `(websocket, player_name)` pair of a game's list. */
  datatype Entry = Entry(ws: Handle, name: string)

  /** One `send_text` to one connection. */
  datatype Delivery = Delivery(to: Handle, payload: Message)

  const UnknownPlayer: string := "Unknown Player"

  /** `player_name or "Unknown Player"`: a missing or empty name becomes the sentinel. */
  function DisplayName(playerName: Option<string>): (name: string)
    ensures name != ""
    ensures playerName.Some? && playerName.value != "" ==> name == playerName.value
  {
    if playerName.Some? && playerName.value != "" then playerName.value else UnknownPlayer
  }

  /** The list registered under `g`, empty when there is none. */
  function Lookup(m: map<nat, seq<Entry>>, g: nat): seq<Entry> {
    if g in m then m[g] else []
  }

  predicate Registered(entries: seq<Entry>, ws: Handle) {
    exists i :: 0 <= i < |entries| && entries[i].ws == ws
  }

  /** The inner loop of `disconnect`: removes the first pair whose handle is `ws`. */
  function RemoveFirst(entries: seq<Entry>, ws: Handle): (r: seq<Entry>)
    ensures !Registered(entries, ws) ==> r == entries
    ensures Registered(entries, ws) ==> |r| == |entries| - 1
  {
    if entries == [] then []
    else if entries[0].ws == ws then entries[1..]
    else
      assert Registered(entries, ws) ==> Registered(entries[1..], ws) by {
        if Registered(entries, ws) {
          var i :| 0 <= i < |entries| && entries[i].ws == ws;
          assert entries[1..][i - 1] == entries[i];
        }
      }
      [entries[0]] + RemoveFirst(entries[1..], ws)
  }

  /** Removing the first match keeps everything before it and everything after it,
      in order. */
  lemma {:induction false} RemoveFirstAt(entries: seq<Entry>, ws: Handle, j: nat)
    requires j <= |entries|
    requires forall k :: 0 <= k < j ==> entries[k].ws != ws
    requires j < |entries| ==> entries[j].ws == ws
    ensures RemoveFirst(entries, ws) == if j < |entries| then entries[..j] + entries[j + 1..] else entries
  {
    if entries != [] && entries[0].ws != ws {
      RemoveFirstAt(entries[1..], ws, j - 1);
      if j < |entries| {
        DropOneSplit(entries, j);
      } else {
        assert [entries[0]] + entries[1..] == entries;
      }
    }
  }

  /** Putting the head back in front of the tail with its element `j - 1` dropped
      gives the list with its element `j` dropped. */
  lemma DropOneSplit(entries: seq<Entry>, j: nat)
    requires 0 < j < |entries|
    ensures [entries[0]] + (entries[1..][..j - 1] + entries[1..][j..]) == entries[..j] + entries[j + 1..]
  {
    assert entries[1..][..j - 1] == entries[1..j];
    assert entries[1..][j..] == entries[j + 1..];
    assert [entries[0]] + entries[1..j] == entries[..j];
  }

  /** The whole effect of `disconnect(ws)` on the map. */
  function Disconnected(m: map<nat, seq<Entry>>, ws: Handle): (r: map<nat, seq<Entry>>)
    ensures r.Keys == m.Keys
  {
    map g | g in m :: RemoveFirst(m[g], ws)
  }

  /** Disconnecting a handle registered nowhere changes nothing. */
  lemma DisconnectUnregistered(m: map<nat, seq<Entry>>, ws: Handle)
    requires forall g :: g in m ==> !Registered(m[g], ws)
    ensures Disconnected(m, ws) == m
  {
  }

  /** When no list holds a handle twice, one `disconnect` removes it everywhere, so a
      later broadcast cannot reach it and a second `disconnect` changes nothing. */
  lemma {:induction false} DisconnectTwice(m: map<nat, seq<Entry>>, ws: Handle)
    requires forall g, i, j :: g in m && 0 <= i < j < |m[g]| ==> m[g][i].ws != ws || m[g][j].ws != ws
    ensures forall g :: g in m ==> !Registered(Disconnected(m, ws)[g], ws)
    ensures Disconnected(Disconnected(m, ws), ws) == Disconnected(m, ws)
  {
    forall g | g in m
      ensures !Registered(Disconnected(m, ws)[g], ws)
    {
      var es := m[g];
      if Registered(es, ws) {
        RemoveFirstAt(es, ws, FirstMatch(es, ws));
      }
    }
    DisconnectUnregistered(Disconnected(m, ws), ws);
  }

  /** The position of the first entry whose handle is `ws`. */
  function FirstMatch(entries: seq<Entry>, ws: Handle): (j: nat)
    requires Registered(entries, ws)
    ensures j < |entries| && entries[j].ws == ws
    ensures forall k :: 0 <= k < j ==> entries[k].ws != ws
  {
    if entries[0].ws == ws then 0
    else
      assert Registered(entries[1..], ws) by {
        var i :| 0 <= i < |entries| && entries[i].ws == ws;
        assert entries[1..][i - 1] == entries[i];
      }
      var j := FirstMatch(entries[1..], ws);
      assert forall k :: 0 < k <= j ==> entries[k] == entries[1..][k - 1];
      1 + j
  }

  /** Removing a handle just appended to a list that did not hold it restores the list. */
  lemma AppendThenRemove(es: seq<Entry>, ws: Handle, name: string)
    requires !Registered(es, ws)
    ensures RemoveFirst(es + [Entry(ws, name)], ws) == es
  {
    RemoveFirstAt(es + [Entry(ws, name)], ws, |es|);
    assert (es + [Entry(ws, name)])[..|es|] == es;
  }

  /** Registering a fresh handle and then disconnecting it restores every list. */
  lemma ConnectThenDisconnect(m: map<nat, seq<Entry>>, g: nat, ws: Handle, name: string)
    requires forall h :: h in m ==> !Registered(m[h], ws)
    ensures Disconnected(m[g := Lookup(m, g) + [Entry(ws, name)]], ws) == m[g := Lookup(m, g)]
  {
    var es := Lookup(m, g);
    assert !Registered(es, ws);
    AppendThenRemove(es, ws, name);
    var before := m[g := es + [Entry(ws, name)]];
    var after := Disconnected(before, ws);
    forall h | h in after
      ensures after[h] == m[g := es][h]
    {
      if h != g {
        assert !Registered(m[h], ws);
      }
    }
  }

  /** A duplicate registration of the same handle survives one `disconnect`. */
  lemma DuplicateSurvivesDisconnect()
    ensures Registered(Disconnected(map[1 := [Entry(7, "Ana"), Entry(7, "Ana")]], 7)[1], 7)
  {
    var m := map[1 := [Entry(7, "Ana"), Entry(7, "Ana")]];
    assert RemoveFirst(m[1], 7) == [Entry(7, "Ana")];
  }

  /** The sends of one broadcast: `payload` to each entry's handle, in list order. */
  function Sends(entries: seq<Entry>, payload: Message): (r: seq<Delivery>)
    ensures |r| == |entries|
    ensures forall i :: 0 <= i < |entries| ==> r[i] == Delivery(entries[i].ws, payload)
  {
    if entries == [] then []
    else Sends(entries[..|entries| - 1], payload) + [Delivery(entries[|entries| - 1].ws, payload)]
  }

  /** The sends of a run of chronometer broadcasts, one per remaining value. */
  function Ticks(entries: seq<Entry>, values: seq<int>): seq<Delivery> {
    if values == [] then []
    else Ticks(entries, values[..|values| - 1]) + Sends(entries, Chronometer(values[|values| - 1]))
  }

  lemma TicksAppend(entries: seq<Entry>, values: seq<int>, v: int)
    ensures Ticks(entries, values + [v]) == Ticks(entries, values) + Sends(entries, Chronometer(v))
  {
    assert (values + [v])[..|values|] == values;
  }

  /** One more tick of the countdown loop appends one broadcast of `remaining`. */
  lemma TicksStep(entries: seq<Entry>, duration: int, remaining: int)
    requires 0 < remaining <= duration
    ensures Ticks(entries, Range(duration, remaining - 1))
         == Ticks(entries, Range(duration, remaining)) + Sends(entries, Chronometer(remaining))
  {
    assert Range(duration, remaining - 1) == Range(duration, remaining) + [remaining];
    TicksAppend(entries, Range(duration, remaining), remaining);
  }

  /** Past the loop, the final `0` completes the countdown. */
  lemma CountdownEnd(entries: seq<Entry>, duration: int, remaining: int)
    requires remaining <= 0 && remaining <= duration
    requires remaining < 0 ==> remaining == duration
    ensures Ticks(entries, Range(duration, remaining)) + Sends(entries, Chronometer(0))
         == Ticks(entries, Countdown(duration))
  {
    if remaining != 0 {
      assert Range(duration, remaining) == [] == Range(duration, 0);
    }
    TicksAppend(entries, Range(duration, 0), 0);
  }

  /** One loop iteration of `_chronometer_task`: the tick for `remaining` extends the
      sends so far to the run down to `remaining - 1`. */
  lemma TickSent(start: seq<Delivery>, before: seq<Delivery>, after: seq<Delivery>,
                 entries: seq<Entry>, duration: int, remaining: int)
    requires 0 < remaining <= duration
    requires before == start + Ticks(entries, Range(duration, remaining))
    requires after == before + Sends(entries, Chronometer(remaining))
    ensures after == start + Ticks(entries, Range(duration, remaining - 1))
  {
    TicksStep(entries, duration, remaining);
    var sofar, tick := Ticks(entries, Range(duration, remaining)), Sends(entries, Chronometer(remaining));
    assert (start + sofar) + tick == start + (sofar + tick);
  }

  /** The final tick `0` after the loop completes the countdown. */
  lemma FinalTickSent(start: seq<Delivery>, before: seq<Delivery>, after: seq<Delivery>,
                      entries: seq<Entry>, duration: int, remaining: int)
    requires remaining <= 0 && remaining <= duration
    requires remaining < 0 ==> remaining == duration
    requires before == start + Ticks(entries, Range(duration, remaining))
    requires after == before + Sends(entries, Chronometer(0))
    ensures after == start + Ticks(entries, Countdown(duration))
  {
    CountdownEnd(entries, duration, remaining);
  }

  /** Part way through `disconnect`: the lists of the first `i` games of `ids` have
      lost their first `ws` pair, the others are as they were in `m`. */
  ghost predicate DisconnectedUpTo(m: map<nat, seq<Entry>>, cur: map<nat, seq<Entry>>, ids: seq<nat>, i: nat, ws: Handle)
    requires i <= |ids|
  {
    && cur.Keys == m.Keys
    && forall g :: g in cur ==> cur[g] == if g in ids[..i] then RemoveFirst(m[g], ws) else m[g]
  }

  /** One game's list done: the next game of `ids`, visited once, loses its first `ws` pair. */
  lemma DisconnectStep(m: map<nat, seq<Entry>>, cur: map<nat, seq<Entry>>, ids: seq<nat>, i: nat, ws: Handle)
    requires i < |ids| && ids[i] in cur && ids[i] !in ids[..i]
    requires DisconnectedUpTo(m, cur, ids, i, ws)
    ensures DisconnectedUpTo(m, cur[ids[i] := RemoveFirst(cur[ids[i]], ws)], ids, i + 1, ws)
  {
    assert ids[..i + 1] == ids[..i] + [ids[i]];
  }

  /** Every game of `ids` done, and `ids` holding exactly the keys: the whole effect. */
  lemma DisconnectAll(m: map<nat, seq<Entry>>, cur: map<nat, seq<Entry>>, ids: seq<nat>, ws: Handle)
    requires DisconnectedUpTo(m, cur, ids, |ids|, ws)
    requires forall g :: g in m <==> g in ids
    ensures cur == Disconnected(m, ws)
  {
    assert ids[..|ids|] == ids;
  }

  /** Every chronometer send goes to a handle of the list and carries one of the values. */
  lemma {:induction false} TicksTargets(entries: seq<Entry>, values: seq<int>)
    ensures forall d :: d in Ticks(entries, values) ==>
              Registered(entries, d.to) && d.payload.Chronometer? && d.payload.remaining in values
  {
    if values != [] {
      var init := values[..|values| - 1];
      TicksTargets(entries, init);
      var last := Sends(entries, Chronometer(values[|values| - 1]));
      forall d | d in last
        ensures Registered(entries, d.to) && d.payload == Chronometer(values[|values| - 1])
      {
        var i :| 0 <= i < |last| && last[i] == d;
      }
      assert forall v :: v in init ==> v in values;
    }
  }

  /** Python's `range(hi, lo, -1)`: `hi, hi - 1, ..., lo + 1`. */
  function Range(hi: int, lo: int): seq<int>
    decreases hi - lo
  {
    if lo >= hi then [] else Range(hi, lo + 1) + [lo + 1]
  }

  /** The `remaining` values of `_chronometer_task`: `range(duration, 0, -1)`, then `0`. */
  function Countdown(duration: int): seq<int> {
    Range(duration, 0) + [0]
  }

  lemma {:induction false} RangeValues(hi: int, lo: int)
    ensures var n := if hi > lo then hi - lo else 0;
      |Range(hi, lo)| == n && forall i :: 0 <= i < n ==> Range(hi, lo)[i] == hi - i
    decreases hi - lo
  {
    if lo < hi {
      RangeValues(hi, lo + 1);
    }
  }

  /** The countdown is `duration, duration - 1, ..., 1, 0` (just `0` when `duration <= 0`). */
  lemma CountdownValues(duration: int)
    ensures var n := if duration > 0 then duration else 0;
      |Countdown(duration)| == n + 1
      && (forall i :: 0 <= i <= n ==> Countdown(duration)[i] == n - i)
  {
    RangeValues(duration, 0);
  }

  /** `get_player_name` on one game's list. */
  function NameIn(entries: seq<Entry>, ws: Handle): Option<string> {
    if entries == [] then None
    else if entries[0].ws == ws then Some(entries[0].name)
    else NameIn(entries[1..], ws)
  }

  /** `get_player_name`: scans the games in map order, each list in order. */
  function NameOf(ids: seq<nat>, m: map<nat, seq<Entry>>, ws: Handle): string {
    if ids == [] then UnknownPlayer
    else match NameIn(Lookup(m, ids[0]), ws)
      case Some(name) => name
      case None => NameOf(ids[1..], m, ws)
  }

  /** A handle registered nowhere has the sentinel name. */
  lemma {:induction false} NameOfUnregistered(ids: seq<nat>, m: map<nat, seq<Entry>>, ws: Handle)
    requires forall i :: 0 <= i < |ids| ==> !Registered(Lookup(m, ids[i]), ws)
    ensures NameOf(ids, m, ws) == UnknownPlayer
  {
    if ids != [] {
      NameInFirst(Lookup(m, ids[0]), ws);
      NameOfUnregistered(ids[1..], m, ws);
    }
  }

  /** A registered handle gets the name of its first pair in the first game (in map
      order) that holds it. */
  lemma {:induction false} NameOfRegistered(ids: seq<nat>, m: map<nat, seq<Entry>>, ws: Handle, gi: nat)
    requires gi < |ids| && Registered(Lookup(m, ids[gi]), ws)
    requires forall i :: 0 <= i < gi ==> !Registered(Lookup(m, ids[i]), ws)
    ensures exists j :: (0 <= j < |Lookup(m, ids[gi])| && Lookup(m, ids[gi])[j].ws == ws
      && NameOf(ids, m, ws) == Lookup(m, ids[gi])[j].name
      && forall k :: 0 <= k < j ==> Lookup(m, ids[gi])[k].ws != ws)
  {
    NameInFirst(Lookup(m, ids[0]), ws);
    if gi > 0 {
      NameOfRegistered(ids[1..], m, ws, gi - 1);
    }
  }

  lemma {:induction false} NameInFirst(entries: seq<Entry>, ws: Handle)
    ensures NameIn(entries, ws).None? <==> !Registered(entries, ws)
    ensures NameIn(entries, ws).Some? ==> exists j :: (0 <= j < |entries| && entries[j].ws == ws
      && NameIn(entries, ws).value == entries[j].name
      && forall k :: 0 <= k < j ==> entries[k].ws != ws)
  {
    if entries != [] && entries[0].ws != ws {
      var rest := entries[1..];
      NameInFirst(rest, ws);
      if Registered(entries, ws) {
        var i :| 0 <= i < |entries| && entries[i].ws == ws;
        assert rest[i - 1].ws == ws;
      }
      if NameIn(rest, ws).Some? {
        var j :| 0 <= j < |rest| && rest[j].ws == ws && NameIn(rest, ws).value == rest[j].name
          && forall k :: 0 <= k < j ==> rest[k].ws != ws;
        assert entries[j + 1] == rest[j];
        assert forall k :: 0 <= k < j + 1 ==> entries[k].ws != ws by {
          forall k | 0 <= k < j + 1 ensures entries[k].ws != ws {
            if k > 0 {
              assert entries[k] == rest[k - 1];
            }
          }
        }
      }
    }
  }

  /** `ConnectionManager`: `active_connections` is the map `active` together with
      `gameIds`, the order in which its keys were inserted. */
  class ConnectionManager {
    var gameIds: seq<nat>
    var active: map<nat, seq<Entry>>
    var outbox: seq<Delivery>

    ghost predicate Valid()
      reads this
    {
      && (forall i, j :: 0 <= i < j < |gameIds| ==> gameIds[i] != gameIds[j])
      && (forall g :: g in active <==> g in gameIds)
    }

    /** The list registered under `g`, empty when there is none. */
    function EntriesOf(g: nat): seq<Entry>
      reads this`active
    {
      Lookup(active, g)
    }

    constructor ()
      ensures Valid()
      ensures gameIds == [] && active == map[] && outbox == []
    {
      gameIds := [];
      active := map[];
      outbox := [];
    }

    /** `connect`: appends `(ws, player_name or "Unknown Player")` to the game's list,
        creating the list first when the game has none. */
    method Connect(ws: Handle, gameId: nat, playerName: Option<string>)
      requires Valid()
      modifies this`gameIds, this`active
      ensures Valid()
      ensures active == old(active)[gameId := old(EntriesOf(gameId)) + [Entry(ws, DisplayName(playerName))]]
      ensures gameIds == if gameId in old(active) then old(gameIds) else old(gameIds) + [gameId]
    {
      if gameId !in active {
        active := active[gameId := []];
        gameIds := gameIds + [gameId];
      }
      var name := DisplayName(playerName);
      active := active[gameId := active[gameId] + [Entry(ws, name)]];
    }

    /** `disconnect`: in every game's list, removes the first pair holding `ws`. */
    method Disconnect(ws: Handle)
      requires Valid()
      modifies this`active
      ensures Valid()
      ensures active == Disconnected(old(active), ws)
    {
      var i := 0;
      while i < |gameIds|
        invariant 0 <= i <= |gameIds|
        invariant DisconnectedUpTo(old(active), active, gameIds, i, ws)
      {
        var g := gameIds[i];
        var entries := active[g];
        var j := 0;
        while j < |entries| && entries[j].ws != ws
          invariant 0 <= j <= |entries|
          invariant forall k :: 0 <= k < j ==> entries[k].ws != ws
        {
          j := j + 1;
        }
        RemoveFirstAt(entries, ws, j);
        assert g !in gameIds[..i];
        DisconnectStep(old(active), active, gameIds, i, ws);
        if j < |entries| {
          active := active[g := entries[..j] + entries[j + 1..]];
        } else {
          assert active == active[g := RemoveFirst(entries, ws)];
        }
        i := i + 1;
      }
      DisconnectAll(old(active), active, gameIds, ws);
    }

    /** `broadcast`: sends the payload to every handle of the game's list, in order;
        a game with no list is sent nothing. */
    method Broadcast(payload: Message, gameId: nat)
      modifies this`outbox
      ensures outbox == old(outbox) + Sends(EntriesOf(gameId), payload)
    {
      if gameId in active {
        var entries := active[gameId];
        var i := 0;
        while i < |entries|
          invariant 0 <= i <= |entries|
          invariant outbox == old(outbox) + Sends(entries[..i], payload)
        {
          assert entries[..i + 1][..i] == entries[..i];
          outbox := outbox + [Delivery(entries[i].ws, payload)];
          i := i + 1;
        }
        assert entries[..i] == entries;
      }
    }

    /** `_chronometer_task`: broadcasts `remaining` from `duration` down to `1`, then `0`,
        all to the same game. */
    method ChronometerTask(gameId: nat, duration: int)
      modifies this`outbox
      ensures outbox == old(outbox) + Ticks(EntriesOf(gameId), Countdown(duration))
    {
      var entries := EntriesOf(gameId);
      var remaining := duration;
      while remaining > 0
        invariant remaining <= duration
        invariant remaining < 0 ==> remaining == duration
        invariant outbox == old(outbox) + Ticks(entries, Range(duration, remaining))
      {
        ghost var before := outbox;
        Broadcast(Chronometer(remaining), gameId);
        TickSent(old(outbox), before, outbox, entries, duration, remaining);
        remaining := remaining - 1;
      }
      ghost var before := outbox;
      Broadcast(Chronometer(0), gameId);
      FinalTickSent(old(outbox), before, outbox, entries, duration, remaining);
    }

    /** `get_player_name`. */
    method GetPlayerName(ws: Handle) returns (name: string)
      requires Valid()
      ensures name == NameOf(gameIds, active, ws)
    {
      var i := 0;
      while i < |gameIds|
        invariant 0 <= i <= |gameIds|
        invariant NameOf(gameIds[i..], active, ws) == NameOf(gameIds, active, ws)
      {
        var entries := active[gameIds[i]];
        var j := 0;
        while j < |entries|
          invariant 0 <= j <= |entries|
          invariant NameIn(entries[j..], ws) == NameIn(entries, ws)
        {
          if entries[j].ws == ws {
            return entries[j].name;
          }
          assert entries[j..][1..] == entries[j + 1..];
          j := j + 1;
        }
        assert gameIds[i..][1..] == gameIds[i + 1..];
        i := i + 1;
      }
      return UnknownPlayer;
    }

    /** `get_players_in_game`: the names of the game's list in registration order,
        `[]` for a game with no list. */
    method GetPlayersInGame(gameId: nat) returns (names: seq<string>)
      ensures |names| == |EntriesOf(gameId)|
      ensures forall i :: 0 <= i < |names| ==> names[i] == EntriesOf(gameId)[i].name
    {
      names := [];
      if gameId in active {
        var entries := active[gameId];
        var i := 0;
        while i < |entries|
          invariant 0 <= i <= |entries|
          invariant |names| == i
          invariant forall k :: 0 <= k < i ==> names[k] == entries[k].name
        {
          names := names + [entries[i].name];
          i := i + 1;
        }
      }
    }
  }
}
