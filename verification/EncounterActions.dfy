/** The next-encounter computations behind the encounter actions of the store: advancing the turn,
    the name given on save, the encounter picked on load, on delete and on start-up. */
module EncounterActions {
  import opened Wrappers
  import opened Types
  import opened Text
  import opened StoreUtils

  // ---------------------------------------------------------------------------------------------
  // nextTurn
  // ---------------------------------------------------------------------------------------------

  /** Where the active id stands in the initiative order `ordered`: a missing active id stands for
      the head of the order, and an id nobody has is not found. */
  function TurnIndex(ordered: seq<Combatant>, active: Option<string>): (r: Option<nat>)
    requires ordered != []
    ensures r.Some? ==> r.value < |ordered|
    ensures active.None? ==> r == Some(0)
    ensures active.Some? ==> r == FindIndex(ordered, active.value)
  {
    FindIndex(ordered, active.GetOr(ordered[0].id))
  }

  /** `(i + 1) % n` for a position `i` of an order of length `n`: the following position, or the head
      after the last one. */
  function Following(i: nat, n: nat): (r: nat)
    requires i < n
    ensures r < n
    ensures r == if i + 1 == n then 0 else i + 1
  {
    (i + 1) % n
  }

  /** `nextTurn`: nothing happens (and nothing is written) without combatants; otherwise only the active
      id, the round and the update time change. Where the active id goes is `NextTurnMoves`. */
  function NextTurn(e: Encounter, now: Timestamp): (r: Option<Encounter>)
    ensures r.None? <==> e.combatants == []
    ensures r.Some? ==>
              && r.value.combatants == e.combatants
              && r.value.id == e.id && r.value.name == e.name && r.value.createdAt == e.createdAt
              && r.value.updatedAt == now
  {
    var ordered := SortByInitiativeDesc(e.combatants);
    if ordered == [] then None
    else
      var current := TurnIndex(ordered, e.activeCombatantId);
      var next := if current.None? then 0 else Following(current.value, |ordered|);
      var wrapped := current.Some? && next == 0;
      Some(e.(round := if wrapped then e.round + 1 else e.round,
              activeCombatantId := Some(ordered[next].id),
              updatedAt := now))
  }

  /** The turn passes to the next combatant of the initiative order, from the last back to the first;
      the round goes up by one exactly when the turn wraps around from a found position. An active id
      that names nobody restarts the order at its head without counting a round. */
  lemma NextTurnMoves(e: Encounter, now: Timestamp)
    requires e.combatants != []
    ensures var r := NextTurn(e, now).value;
            var ordered := SortByInitiativeDesc(e.combatants);
            var pos := TurnIndex(ordered, e.activeCombatantId);
            && (pos.None? ==>
                  r.activeCombatantId == Some(ordered[0].id) && r.round == e.round)
            && (pos.Some? && pos.value + 1 < |ordered| ==>
                  r.activeCombatantId == Some(ordered[pos.value + 1].id) && r.round == e.round)
            && (pos.Some? && pos.value + 1 == |ordered| ==>
                  r.activeCombatantId == Some(ordered[0].id) && r.round == e.round + 1)
  {
    var ordered := SortByInitiativeDesc(e.combatants);
    var pos := TurnIndex(ordered, e.activeCombatantId);
    var next := if pos.None? then 0 else Following(pos.value, |ordered|);
    var r := NextTurn(e, now).value;
    assert r.activeCombatantId == Some(ordered[next].id);
    assert r.round == if pos.Some? && next == 0 then e.round + 1 else e.round;
  }

  /** After a turn the active id names a combatant of the encounter, whatever it named before: a
      missing or stale active id is repaired too. */
  lemma NextTurnMakesActiveConsistent(e: Encounter, now: Timestamp)
    ensures var r := NextTurn(e, now); r.Some? ==> ActiveConsistent(r.value)
  {
    var r := NextTurn(e, now);
    if r.Some? {
      NextTurnMoves(e, now);
      SortKeepsIds(e.combatants);
      var ordered := SortByInitiativeDesc(e.combatants);
      var k :| 0 <= k < |ordered| && r.value.activeCombatantId == Some(ordered[k].id);
      assert ordered[k] in ordered;
    }
  }

  /** A lone combatant that is not yet marked active gets the turn and the round goes up: the
      missing active id counts as naming the head of the order. */
  lemma LoneCombatantWithoutActiveIdWraps(e: Encounter, c: Combatant, now: Timestamp)
    requires e.combatants == [c] && e.activeCombatantId == None
    ensures var r := NextTurn(e, now);
            r.Some? && r.value.activeCombatantId == Some(c.id) && r.value.round == e.round + 1
  {
    var s := SortByInitiativeDesc([c]);
    assert s[0] in multiset(s);
    NextTurnMoves(e, now);
  }

  /** An active id that names nobody moves to the head of the order, and the round stays. */
  lemma StaleActiveIdRestarts(e: Encounter, now: Timestamp)
    requires e.combatants != []
    requires e.activeCombatantId.Some? && e.activeCombatantId.value !in Ids(e.combatants)
    ensures var r := NextTurn(e, now);
            && r.Some?
            && r.value.activeCombatantId == Some(SortByInitiativeDesc(e.combatants)[0].id)
            && r.value.round == e.round
  {
    SortKeepsIds(e.combatants);
    NextTurnMoves(e, now);
  }

  /** The store's `nextTurn` pressed once: a press without combatants changes nothing. */
  function Press(e: Encounter, now: Timestamp): (r: Encounter)
    ensures r.combatants == e.combatants && r.id == e.id && r.name == e.name
  {
    NextTurn(e, now).GetOr(e)
  }

  /** The store's `nextTurn` as a step on encounters. */
  function Step(now: Timestamp): Encounter -> Encounter {
    x => Press(x, now)
  }

  /** `k` applications of `step`. */
  function Repeat(step: Encounter -> Encounter, e: Encounter, k: nat): Encounter
    decreases k
  {
    if k == 0 then e else Repeat(step, step(e), k - 1)
  }

  /** `a + b` applications are `a` applications followed by `b` applications. */
  lemma {:induction false} RepeatCompose(step: Encounter -> Encounter, e: Encounter, a: nat, b: nat, c: nat)
    requires a + b == c
    ensures Repeat(step, e, c) == Repeat(step, Repeat(step, e, a), b)
    decreases a
  {
    if a > 0 {
      RepeatCompose(step, step(e), a - 1, b, c - 1);
    }
  }

  /** The store's `nextTurn` pressed `k` times. */
  function Turns(e: Encounter, k: nat, now: Timestamp): Encounter {
    Repeat(Step(now), e, k)
  }

  /** One press from position `i` of an order without repeated ids moves to the following position,
      and from the last position back to the head with one more round. */
  lemma OneTurn(e: Encounter, i: nat, now: Timestamp)
    requires DistinctIds(e.combatants)
    requires i < |e.combatants|
    requires e.activeCombatantId == Some(SortByInitiativeDesc(e.combatants)[i].id)
    ensures var ordered := SortByInitiativeDesc(e.combatants);
            var r := Press(e, now);
            && (i + 1 < |ordered| ==> r.activeCombatantId == Some(ordered[i + 1].id) && r.round == e.round)
            && (i + 1 == |ordered| ==> r.activeCombatantId == Some(ordered[0].id) && r.round == e.round + 1)
  {
    var ordered := SortByInitiativeDesc(e.combatants);
    SortKeepsDistinct(e.combatants);
    FindIndexDistinct(ordered, i);
    assert TurnIndex(ordered, e.activeCombatantId) == Some(i);
    NextTurnMoves(e, now);
  }

  /** The combatant at position `j` of an order. */
  function At(o: seq<Combatant>, j: nat): Combatant
    requires j < |o|
  {
    o[j]
  }

  /** `step` moves the active id through the order `o` of the combatants `cs`: from each position to
      the next, and from the last back to the head with one more round, never changing who takes
      part. */
  ghost predicate CyclesThrough(step: Encounter -> Encounter, cs: seq<Combatant>, o: seq<Combatant>) {
    forall x: Encounter, j: nat {:trigger step(x), At(o, j)} ::
      j < |o| && x.combatants == cs && x.activeCombatantId == Some(At(o, j).id) ==>
        && step(x).combatants == cs
        && step(x).activeCombatantId == Some(o[if j + 1 == |o| then 0 else j + 1].id)
        && step(x).round == (if j + 1 == |o| then x.round + 1 else x.round)
  }

  /** The store's `nextTurn` moves through the initiative order of combatants without repeated ids. */
  lemma NextTurnCycles(cs: seq<Combatant>, now: Timestamp)
    requires DistinctIds(cs)
    ensures CyclesThrough(Step(now), cs, SortByInitiativeDesc(cs))
  {
    var o := SortByInitiativeDesc(cs);
    forall x: Encounter, j: nat | j < |o| && x.combatants == cs && x.activeCombatantId == Some(At(o, j).id)
      ensures && Step(now)(x).combatants == cs
              && Step(now)(x).activeCombatantId == Some(o[if j + 1 == |o| then 0 else j + 1].id)
              && Step(now)(x).round == (if j + 1 == |o| then x.round + 1 else x.round)
    {
      OneTurn(x, j, now);
    }
  }

  /** Steps that stay within the order move the active id `k` positions on without a new round. */
  lemma {:induction false} RepeatWithinOrder(step: Encounter -> Encounter, cs: seq<Combatant>, o: seq<Combatant>,
                                             e: Encounter, i: nat, k: nat)
    requires CyclesThrough(step, cs, o)
    requires e.combatants == cs && i + k < |o| && e.activeCombatantId == Some(o[i].id)
    ensures var r := Repeat(step, e, k);
            r.combatants == cs && r.activeCombatantId == Some(o[i + k].id) && r.round == e.round
    decreases k
  {
    if k == 0 {
      assert Repeat(step, e, 0) == e;
    } else {
      assert e.activeCombatantId == Some(At(o, i).id);
      var next := step(e);
      assert next.combatants == cs && next.activeCombatantId == Some(o[i + 1].id) && next.round == e.round;
      RepeatWithinOrder(step, cs, o, next, i + 1, k - 1);
      assert Repeat(step, e, k) == Repeat(step, next, k - 1);
    }
  }

  /** Steps from position `i` to the end of the order and one more land on its head, one round later. */
  lemma RepeatWrap(step: Encounter -> Encounter, cs: seq<Combatant>, o: seq<Combatant>, e: Encounter, i: nat)
    requires CyclesThrough(step, cs, o)
    requires e.combatants == cs && i < |o| && e.activeCombatantId == Some(o[i].id)
    ensures var r := Repeat(step, e, |o| - i);
            r.combatants == cs && r.activeCombatantId == Some(o[0].id) && r.round == e.round + 1
  {
    var a := |o| - 1 - i;
    RepeatWithinOrder(step, cs, o, e, i, a);
    var last := Repeat(step, e, a);
    assert last.combatants == cs && last.activeCombatantId == Some(At(o, |o| - 1).id) && last.round == e.round;
    var head := step(last);
    assert head.combatants == cs && head.activeCombatantId == Some(o[0].id) && head.round == e.round + 1;
    assert Repeat(step, last, 1) == head;
    RepeatCompose(step, e, a, 1, |o| - i);
  }

  /** From the head of the order, `i` more steps reach position `i` of the order one round later
      than `e`, which is where `e` started. */
  lemma RepeatFromHead(step: Encounter -> Encounter, cs: seq<Combatant>, o: seq<Combatant>, e: Encounter,
                       head: Encounter, i: nat)
    requires CyclesThrough(step, cs, o)
    requires i < |o| && head == Repeat(step, e, |o| - i)
    requires head.combatants == cs && head.activeCombatantId == Some(o[0].id) && head.round == e.round + 1
    ensures var r := Repeat(step, e, |o|);
            r.activeCombatantId == Some(o[i].id) && r.round == e.round + 1
  {
    RepeatWithinOrder(step, cs, o, head, 0, i);
    RepeatCompose(step, e, |o| - i, i, |o|);
  }

  /** As many steps as the order is long bring the active id back to where it started, one round later. */
  lemma RepeatFullCycle(step: Encounter -> Encounter, cs: seq<Combatant>, o: seq<Combatant>, e: Encounter, i: nat)
    requires CyclesThrough(step, cs, o)
    requires e.combatants == cs && i < |o| && e.activeCombatantId == Some(o[i].id)
    ensures var r := Repeat(step, e, |o|);
            r.activeCombatantId == e.activeCombatantId && r.round == e.round + 1
  {
    RepeatWrap(step, cs, o, e, i);
    RepeatFromHead(step, cs, o, e, Repeat(step, e, |o| - i), i);
  }

  /** As many turns as there are combatants bring the turn back to the same combatant, one round
      later. */
  lemma FullCycle(e: Encounter, now: Timestamp)
    requires DistinctIds(e.combatants)
    requires e.activeCombatantId.Some? && e.activeCombatantId.value in Ids(e.combatants)
    ensures var r := Turns(e, |e.combatants|, now);
            r.activeCombatantId == e.activeCombatantId && r.round == e.round + 1
  {
    var o := SortByInitiativeDesc(e.combatants);
    SortKeepsIds(e.combatants);
    var i := FindIndex(o, e.activeCombatantId.value).value;
    NextTurnCycles(e.combatants, now);
    RepeatFullCycle(Step(now), e.combatants, o, e, i);
  }

  // ---------------------------------------------------------------------------------------------
  // saveActiveEncounter
  // ---------------------------------------------------------------------------------------------

  /** `name?.trim() || current.name || "Encounter"`: the trimmed argument when it has any non-space
      character, else the current name when it is not empty, else "Encounter". */
  function SaveName(arg: Option<string>, current: string): (r: string)
    ensures r != []
    ensures arg.Some? && !AllSpace(arg.value) ==> r == Trim(arg.value)
    ensures (arg.None? || AllSpace(arg.value)) && current != [] ==> r == current
    ensures (arg.None? || AllSpace(arg.value)) && current == [] ==> r == "Encounter"
  {
    var given := if arg.Some? then Trim(arg.value) else "";
    if given != [] then given else if current != [] then current else "Encounter"
  }

  /** Saving again without a name keeps the name the first save chose. */
  lemma SaveNameStable(arg: Option<string>, current: string)
    ensures SaveName(None, SaveName(arg, current)) == SaveName(arg, current)
  {
  }

  /** A name that is already trimmed and not empty is kept exactly when given again. */
  lemma SaveNameOfTrimmed(name: string, current: string)
    requires name != [] && IsTrimmed(name)
    ensures SaveName(Some(name), current) == name
  {
    TrimOfTrimmed(name);
  }

  /** The encounter `saveActiveEncounter` writes and keeps active: only its name and its update time
      change. */
  function Saved(e: Encounter, arg: Option<string>, now: Timestamp): (r: Encounter)
    ensures r.name == SaveName(arg, e.name) && r.updatedAt == now
    ensures r.(name := e.name, updatedAt := e.updatedAt) == e
  {
    e.(name := SaveName(arg, e.name), updatedAt := now)
  }

  // ---------------------------------------------------------------------------------------------
  // loadEncounter, deleteEncounter, init
  // ---------------------------------------------------------------------------------------------

  /** `encounters.find((item) => item.id === id)`: the first encounter with that id. */
  function FindEncounter(es: seq<Encounter>, id: string): (r: Option<Encounter>)
    ensures r.None? <==> forall x :: x in es ==> x.id != id
    ensures r.Some? ==> r.value in es && r.value.id == id
    ensures r.Some? ==> exists i :: 0 <= i < |es| && es[i] == r.value
                                  && forall j :: 0 <= j < i ==> es[j].id != id
  {
    if es == [] then None
    else if es[0].id == id then Some(es[0])
    else
      var r := FindEncounter(es[1..], id);
      assert es == [es[0]] + es[1..];
      if r.Some? then
        var i :| 0 <= i < |es[1..]| && es[1..][i] == r.value && forall j :: 0 <= j < i ==> es[1..][j].id != id;
        assert es[i + 1] == r.value;
        assert forall j :: 0 <= j < i + 1 ==> es[j].id != id by {
          forall j | 0 <= j < i + 1 ensures es[j].id != id {
            if j > 0 { assert es[j] == es[1..][j - 1]; }
          }
        }
        r
      else r
  }

  /** `loadEncounter`: nothing happens when the list has no encounter with `id`; otherwise the active
      encounter becomes the first match with its round repaired. */
  function LoadEncounter(es: seq<Encounter>, id: string): (r: Option<Encounter>)
    ensures r.None? <==> forall x :: x in es ==> x.id != id
    ensures r.Some? ==> r.value.round >= 1 && r.value.id == id
    ensures r.Some? ==> r.value == NormalizeEncounter(Stored(FindEncounter(es, id).value))
  {
    match FindEncounter(es, id)
    case None => None
    case Some(x) => Some(NormalizeEncounter(Stored(x)))
  }

  /** Loading the only encounter with a given id, when its round is valid, gives it back unchanged. */
  lemma LoadOfUniqueEncounter(es: seq<Encounter>, x: Encounter)
    requires x in es && x.round >= 1
    requires forall y :: y in es && y.id == x.id ==> y == x
    ensures LoadEncounter(es, x.id) == Some(x)
  {
    NormalizeKeepsValidRound(x);
  }

  /** The active encounter after `deleteEncounter(deletedId)`, given the refreshed saved list: the
      head of that list (taken as stored, without repairing its round) or a blank encounter when the
      active encounter was the one deleted, and the active encounter itself otherwise. */
  function ActiveAfterDelete(active: Encounter, deletedId: string, refreshed: seq<Encounter>,
                             blank: Encounter): (r: Encounter)
    ensures active.id != deletedId ==> r == active
    ensures active.id == deletedId && refreshed != [] ==> r == refreshed[0]
    ensures active.id == deletedId && refreshed == [] ==> r == blank
  {
    if active.id == deletedId then (if refreshed != [] then refreshed[0] else blank) else active
  }

  /** `encounters.map(normalizeEncounter)`. */
  function NormalizeAll(es: seq<Encounter>): (r: seq<Encounter>)
    ensures |r| == |es|
    ensures forall i :: 0 <= i < |es| ==> r[i] == NormalizeEncounter(Stored(es[i]))
  {
    seq(|es|, i requires 0 <= i < |es| => NormalizeEncounter(Stored(es[i])))
  }

  /** Every encounter of a normalised list has a valid round, and normalising it again changes
      nothing. */
  lemma NormalizeAllRepairs(es: seq<Encounter>)
    ensures forall x :: x in NormalizeAll(es) ==> x.round >= 1
    ensures NormalizeAll(NormalizeAll(es)) == NormalizeAll(es)
  {
    var r := NormalizeAll(es);
    forall i | 0 <= i < |es| ensures NormalizeAll(r)[i] == r[i] {
      NormalizeIdempotent(Stored(es[i]));
    }
  }

  /** The active encounter `init` chooses: the repaired draft when there is one, else the first of the
      repaired saved list, else the encounter that was already active. */
  function InitialActive(draft: Option<StoredEncounter>, saved: seq<Encounter>, current: Encounter): (r: Encounter)
    ensures draft.Some? ==> r == NormalizeEncounter(draft.value)
    ensures draft.None? && saved != [] ==> r == NormalizeEncounter(Stored(saved[0]))
    ensures draft.None? && saved == [] ==> r == current
    ensures (draft.Some? || saved != []) ==> r.round >= 1
  {
    var normalized := NormalizeAll(saved);
    if draft.Some? then NormalizeEncounter(draft.value)
    else if normalized != [] then normalized[0]
    else current
  }
}
