/** The continent allocator of the game service: the fixed pool of four continents,
    the set of continents a game's players already hold, and the choice of a free one. */
module Continents {
  import opened Models
  import opened Sets

  /** `GameService.CONTINENTS`, in its declared order. */
  const Pool: seq<string> := ["Europe", "Asie", "Afrique", "Amerique"]

  /** The continents held by the players of a roster, skipping empty values as the
      `if value:` test does; built player by player like the source's loop. */
  function Taken(roster: seq<Player>): (r: set<string>)
    ensures forall c :: c in r <==> c != "" && exists p :: p in roster && p.continent == c
  {
    if roster == [] then {}
    else
      var last := roster[|roster| - 1];
      assert roster == roster[..|roster| - 1] + [last];
      Taken(roster[..|roster| - 1]) + (if last.continent != "" then {last.continent} else {})
  }

  /** The list comprehension of `_assign_continent`: the members of `pool` not in
      `taken`, keeping the pool's order. */
  function Available(pool: seq<string>, taken: set<string>): (r: seq<string>)
    ensures |r| <= |pool|
    ensures forall c :: c in r <==> c in pool && c !in taken
  {
    if pool == [] then []
    else (if pool[0] in taken then [] else [pool[0]]) + Available(pool[1..], taken)
  }

  /** `_assign_continent` given the continents already taken in the game; the
      `random.choice` over the available list is the oracle index `pick`. */
  function AssignContinent(taken: set<string>, pick: nat): (r: Result<string>)
    ensures r.Ok? <==> exists c :: c in Pool && c !in taken
    ensures r.Ok? ==> r.value in Pool && r.value !in taken
    ensures r.Err? ==> r.error == NoContinents
  {
    var available := Available(Pool, taken);
    if available == [] then
      assert forall c :: c in Pool ==> c in taken;
      Err(NoContinents)
    else
      var c := available[pick % |available|];
      assert c in available;
      Ok(c)
  }

  /** With nothing taken, the random choice ranges over the whole pool. */
  lemma NothingTakenPicksFromPool(pick: nat)
    ensures AssignContinent({}, pick) == Ok(Pool[pick % |Pool|])
  {
    NothingTakenKeepsAll(Pool);
  }

  lemma {:induction false} NothingTakenKeepsAll(pool: seq<string>)
    ensures Available(pool, {}) == pool
  {
    if pool != [] {
      NothingTakenKeepsAll(pool[1..]);
      assert [pool[0]] + pool[1..] == pool;
    }
  }

  /** Every free continent is a possible outcome of the random choice. */
  lemma AnyFreeContinentCanBePicked(taken: set<string>, c: string)
    requires c in Pool && c !in taken
    ensures exists pick: nat :: AssignContinent(taken, pick) == Ok(c)
  {
    var available := Available(Pool, taken);
    assert c in available;
    var k :| 0 <= k < |available| && available[k] == c;
    assert k % |available| == k;
    assert AssignContinent(taken, k) == Ok(c);
  }

  /** The conditions a game's roster keeps: continents from the pool, pairwise
      distinct continents and names, and at most one host. */
  ghost predicate RosterOk(roster: seq<Player>) {
    && (forall i :: 0 <= i < |roster| ==> roster[i].continent in Pool)
    && (forall i, j :: 0 <= i < j < |roster| ==>
          roster[i].continent != roster[j].continent
          && roster[i].name != roster[j].name
          && !(roster[i].isHost && roster[j].isHost))
  }

  /** With pairwise distinct continents, each player adds one continent to the taken set. */
  lemma {:induction false} TakenCount(roster: seq<Player>)
    requires RosterOk(roster)
    ensures |Taken(roster)| == |roster|
    ensures Taken(roster) <= set c | c in Pool
  {
    if roster != [] {
      var init := roster[..|roster| - 1];
      var last := roster[|roster| - 1];
      assert RosterOk(init);
      TakenCount(init);
      assert last.continent in Pool;
      assert last.continent != "";
    }
  }

  lemma PoolHasFour()
    ensures (set c | c in Pool) == {"Europe", "Asie", "Afrique", "Amerique"}
    ensures |set c | c in Pool| == 4
  {
  }

  /** A game never holds more players than there are continents. */
  lemma RosterAtMostFour(roster: seq<Player>)
    requires RosterOk(roster)
    ensures |roster| <= |Pool|
  {
    TakenCount(roster);
    PoolHasFour();
    SubsetCardinality(Taken(roster), set c | c in Pool);
  }

  /** Once four players hold the four continents, every continent of the pool is taken. */
  lemma FullRosterTakesPool(roster: seq<Player>)
    requires RosterOk(roster) && |roster| == |Pool|
    ensures Taken(roster) == set c | c in Pool
  {
    TakenCount(roster);
    PoolHasFour();
    SubsetOfSameSize(Taken(roster), set c | c in Pool);
  }

  /** Once four players hold the four continents, no pick yields a continent. */
  lemma FullRosterHasNoContinent(roster: seq<Player>, pick: nat)
    requires RosterOk(roster) && |roster| == |Pool|
    ensures AssignContinent(Taken(roster), pick) == Err(NoContinents)
  {
    var taken := Taken(roster);
    FullRosterTakesPool(roster);
    assert forall c :: c in Pool ==> c in taken;
  }
}
