/** The next-encounter computations behind the combatant actions of the store: add, add from the
    library, duplicate, delete and change hit points. Each takes the current encounter and gives the
    encounter the store then holds. Ids and the current instant are supplied by the caller. */
module CombatantActions {
  import opened Wrappers
  import opened Types
  import opened Text
  import opened StoreUtils

  // ---------------------------------------------------------------------------------------------
  // addCombatant
  // ---------------------------------------------------------------------------------------------

  /** The combatant `addCombatant` builds: the trimmed name, the given statistics taken as they are
      (no clamping of hit points), no conditions and no actions. */
  function NewCombatant(input: NewCombatantInput, id: string, now: Timestamp): (c: Combatant)
    ensures c.id == id && c.name == Trim(input.name) && c.kind == input.kind
    ensures c.maxHp == input.maxHp && c.currentHp == input.currentHp
    ensures c.ac == input.ac && c.initiative == input.initiative
    ensures c.conditions == [] && c.actions == []
    ensures c.createdAt == now && c.updatedAt == now
  {
    Combatant(id, Trim(input.name), input.kind, input.maxHp, input.currentHp, input.ac, input.initiative,
              [], [], now, now)
  }

  /** `addCombatant`: the new combatant goes at the end, and becomes active when nobody was. */
  function AddCombatant(e: Encounter, input: NewCombatantInput, id: string, now: Timestamp): (r: Encounter)
    ensures r.combatants == e.combatants + [NewCombatant(input, id, now)]
    ensures |r.combatants| == |e.combatants| + 1
    ensures r.combatants[..|e.combatants|] == e.combatants
    ensures r.combatants[|e.combatants|] == NewCombatant(input, id, now)
    ensures r.activeCombatantId == if e.activeCombatantId.Some? then e.activeCombatantId else Some(id)
    ensures r.id == e.id && r.name == e.name && r.round == e.round
    ensures r.createdAt == e.createdAt && r.updatedAt == now
  {
    var c := NewCombatant(input, id, now);
    var r := e.(combatants := e.combatants + [c],
                activeCombatantId := Some(e.activeCombatantId.GetOr(c.id)),
                updatedAt := now);
    assert r.combatants[..|e.combatants|] == e.combatants;
    r
  }

  // ---------------------------------------------------------------------------------------------
  // addCombatantFromLibrary
  // ---------------------------------------------------------------------------------------------

  /** A copy of a library template: everything but the id and the two timestamps is the template's. */
  function CopyOf(template: Combatant, id: string, now: Timestamp): (c: Combatant)
    ensures c.id == id && c.createdAt == now && c.updatedAt == now
    ensures c.(id := template.id, createdAt := template.createdAt, updatedAt := template.updatedAt) == template
  {
    template.(id := id, createdAt := now, updatedAt := now)
  }

  /** `addCombatantFromLibrary`: nothing happens (and nothing is written) when the library has no
      combatant with `templateId`; otherwise a copy of the first such template is appended and becomes
      active when nobody was. */
  function AddCombatantFromLibrary(e: Encounter, library: seq<Combatant>, templateId: string,
                                   id: string, now: Timestamp): (r: Option<Encounter>)
    ensures r.None? <==> templateId !in Ids(library)
    ensures r.Some? ==> var t := FindById(library, templateId).value;
            && t in library && t.id == templateId
            && r.value.combatants == e.combatants + [CopyOf(t, id, now)]
            && r.value.activeCombatantId == (if e.activeCombatantId.Some? then e.activeCombatantId else Some(id))
            && r.value.id == e.id && r.value.name == e.name && r.value.round == e.round
            && r.value.createdAt == e.createdAt && r.value.updatedAt == now
  {
    match FindById(library, templateId)
    case None => None
    case Some(t) =>
      var c := CopyOf(t, id, now);
      Some(e.(combatants := e.combatants + [c],
              activeCombatantId := Some(e.activeCombatantId.GetOr(c.id)),
              updatedAt := now))
  }

  // ---------------------------------------------------------------------------------------------
  // duplicateCombatant
  // ---------------------------------------------------------------------------------------------

  /** The name of the copy made at position `index` of one duplication: the source name, a space and
      `index + 2`, whatever names the encounter already holds. */
  function DuplicateName(name: string, index: nat): (r: string)
    ensures r == name + " " + NatToString(index + 2)
    ensures |r| > |name| + 1 && r[..|name|] == name && r[|name|] == ' '
  {
    name + " " + NatToString(index + 2)
  }

  /** The copies `Array.from({ length: count }, ...)` makes of `source`, one per supplied id. */
  function DuplicatesOf(source: Combatant, ids: seq<string>, now: Timestamp): (copies: seq<Combatant>)
    ensures |copies| == |ids|
    ensures forall i :: 0 <= i < |ids| ==>
              && copies[i].id == ids[i]
              && copies[i].name == DuplicateName(source.name, i)
              && copies[i].createdAt == now && copies[i].updatedAt == now
              && copies[i].(id := source.id, name := source.name,
                            createdAt := source.createdAt, updatedAt := source.updatedAt) == source
  {
    seq(|ids|, i requires 0 <= i < |ids| =>
      source.(id := ids[i], name := DuplicateName(source.name, i), createdAt := now, updatedAt := now))
  }

  /** `duplicateCombatant(combatantId, count)` with `count == |ids|`: nothing happens when no combatant
      has `sourceId`; otherwise the copies are appended and the round and active id stay as they
      were. */
  function DuplicateCombatant(e: Encounter, sourceId: string, ids: seq<string>, now: Timestamp): (r: Option<Encounter>)
    ensures r.None? <==> sourceId !in Ids(e.combatants)
    ensures r.Some? ==> var source := FindById(e.combatants, sourceId).value;
            && r.value.combatants == e.combatants + DuplicatesOf(source, ids, now)
            && r.value.activeCombatantId == e.activeCombatantId
            && r.value.round == e.round
            && r.value.id == e.id && r.value.name == e.name
            && r.value.createdAt == e.createdAt && r.value.updatedAt == now
  {
    match FindById(e.combatants, sourceId)
    case None => None
    case Some(source) =>
      Some(e.(combatants := e.combatants + DuplicatesOf(source, ids, now), updatedAt := now))
  }

  /** Appending combatants does not change which one a lookup finds, when the id is already there. */
  lemma {:induction false} FindByIdAppend(a: seq<Combatant>, b: seq<Combatant>, id: string)
    requires id in Ids(a)
    ensures FindById(a + b, id) == FindById(a, id)
  {
    var i := FindIndex(a, id).value;
    var ab := a + b;
    assert ab[i] == a[i] && ab[i] in ab;
    var j := FindIndex(ab, id);
    assert j.Some?;
    assert j.value == i;
  }

  /** The first copy of a duplication is named "<name> 2". */
  lemma FirstCopyName(e: Encounter, sourceId: string, ids: seq<string>, now: Timestamp)
    requires sourceId in Ids(e.combatants) && |ids| >= 1
    ensures var r := DuplicateCombatant(e, sourceId, ids, now).value;
            r.combatants[|e.combatants|].name == FindById(e.combatants, sourceId).value.name + " 2"
  {
    var source := FindById(e.combatants, sourceId).value;
    var copies := DuplicatesOf(source, ids, now);
    assert (e.combatants + copies)[|e.combatants|] == copies[0];
    assert NatToString(2) == "2";
  }

  /** Duplicating the same combatant twice names the first copy of each call "<name> 2": the numbering
      does not look at the names already present. */
  lemma DuplicateNumberingRestarts(e: Encounter, sourceId: string, ids1: seq<string>, ids2: seq<string>,
                                   now1: Timestamp, now2: Timestamp)
    requires sourceId in Ids(e.combatants) && |ids1| >= 1 && |ids2| >= 1
    ensures var first := DuplicateCombatant(e, sourceId, ids1, now1).value;
            var second := DuplicateCombatant(first, sourceId, ids2, now2);
            var name := FindById(e.combatants, sourceId).value.name;
            && second.Some?
            && second.value.combatants[|e.combatants|].name == name + " 2"
            && second.value.combatants[|e.combatants| + |ids1|].name == name + " 2"
  {
    var source := FindById(e.combatants, sourceId).value;
    var copies1 := DuplicatesOf(source, ids1, now1);
    var first := DuplicateCombatant(e, sourceId, ids1, now1).value;
    FirstCopyName(e, sourceId, ids1, now1);
    FindByIdAppend(e.combatants, copies1, sourceId);
    assert sourceId in Ids(first.combatants) by {
      assert source in first.combatants;
    }
    FirstCopyName(first, sourceId, ids2, now2);
    var second := DuplicateCombatant(first, sourceId, ids2, now2).value;
    assert second.combatants[|e.combatants|] == first.combatants[|e.combatants|];
  }

  // ---------------------------------------------------------------------------------------------
  // deleteCombatant
  // ---------------------------------------------------------------------------------------------

  /** `combatants.filter((c) => c.id !== id)`: every combatant with another id, in the same order. */
  function WithoutId(cs: seq<Combatant>, id: string): (r: seq<Combatant>)
    ensures |r| <= |cs|
  {
    if cs == [] then []
    else (if cs[0].id == id then [] else [cs[0]]) + WithoutId(cs[1..], id)
  }

  /** The survivors of the filter are exactly the combatants with another id. */
  lemma {:induction false} WithoutIdMembers(cs: seq<Combatant>, id: string)
    ensures forall c :: c in WithoutId(cs, id) <==> c in cs && c.id != id
  {
    if cs != [] {
      WithoutIdMembers(cs[1..], id);
      var head := if cs[0].id == id then [] else [cs[0]];
      assert WithoutId(cs, id) == head + WithoutId(cs[1..], id);
      forall c ensures c in WithoutId(cs, id) <==> c in cs && c.id != id {
        assert c in cs <==> c == cs[0] || c in cs[1..] by {
          assert cs == [cs[0]] + cs[1..];
        }
      }
    }
  }

  /** The filter removes `id` from the ids and keeps every other one. */
  lemma WithoutIdIds(cs: seq<Combatant>, id: string)
    ensures Ids(WithoutId(cs, id)) == Ids(cs) - {id}
  {
    WithoutIdMembers(cs, id);
    var r := WithoutId(cs, id);
    forall x | x in Ids(cs) - {id} ensures x in Ids(r) {
      var c :| c in cs && c.id == x;
      assert c in r;
    }
  }

  /** Filtering distributes over concatenation, so the survivors keep their relative order. */
  lemma {:induction false} WithoutIdAppend(a: seq<Combatant>, b: seq<Combatant>, id: string)
    ensures WithoutId(a + b, id) == WithoutId(a, id) + WithoutId(b, id)
  {
    if a == [] {
      assert a + b == b;
    } else {
      var ab := a + b;
      assert ab[0] == a[0];
      assert ab[1..] == a[1..] + b;
      WithoutIdAppend(a[1..], b, id);
      var head := if a[0].id == id then [] else [a[0]];
      assert WithoutId(ab, id) == head + (WithoutId(a[1..], id) + WithoutId(b, id));
    }
  }

  /** Filtering out an id nobody has changes nothing. */
  lemma {:induction false} WithoutAbsentId(cs: seq<Combatant>, id: string)
    requires id !in Ids(cs)
    ensures WithoutId(cs, id) == cs
  {
    if cs != [] {
      WithoutAbsentId(cs[1..], id);
      assert cs == [cs[0]] + cs[1..];
    }
  }

  /** `deleteCombatant`: every combatant with `id` goes, the rest keep their order; the round goes back
      to 1 when nobody is left; deleting the active combatant hands the turn to the head of the
      initiative order of those left (nobody when none are left), deleting anyone else leaves the active
      id alone. */
  function DeleteCombatant(e: Encounter, id: string, now: Timestamp): (r: Encounter)
    ensures r.combatants == WithoutId(e.combatants, id)
    ensures r.round == if r.combatants == [] then 1 else e.round
    ensures e.activeCombatantId == Some(id) ==>
              r.activeCombatantId == (if r.combatants == [] then None
                                      else Some(SortByInitiativeDesc(r.combatants)[0].id))
    ensures e.activeCombatantId != Some(id) ==> r.activeCombatantId == e.activeCombatantId
    ensures r.id == e.id && r.name == e.name && r.createdAt == e.createdAt && r.updatedAt == now
  {
    var remaining := WithoutId(e.combatants, id);
    var ordered := SortByInitiativeDesc(remaining);
    var nextActive :=
      if e.activeCombatantId == Some(id) then (if ordered == [] then None else Some(ordered[0].id))
      else e.activeCombatantId;
    e.(round := if remaining == [] then 1 else e.round,
       combatants := remaining,
       activeCombatantId := nextActive,
       updatedAt := now)
  }

  /** Deleting the active combatant gives the turn to a remaining combatant with the highest
      initiative, the earliest added among equals. */
  lemma DeleteActiveHandsTurnToHighest(e: Encounter, id: string, now: Timestamp)
    requires e.activeCombatantId == Some(id)
    requires WithoutId(e.combatants, id) != []
    ensures var r := DeleteCombatant(e, id, now);
            && r.activeCombatantId.Some?
            && exists i :: 0 <= i < |r.combatants| && r.combatants[i].id == r.activeCombatantId.value
                           && (forall d :: d in r.combatants ==> d.initiative <= r.combatants[i].initiative)
                           && (forall j :: 0 <= j < i ==> r.combatants[j].initiative < r.combatants[i].initiative)
  {
    HeadIsHighestEarliest(WithoutId(e.combatants, id));
  }


  /** Deleting the last combatant leaves an empty encounter in round 1 with nobody active. */
  lemma DeleteLastCombatant(e: Encounter, c: Combatant, now: Timestamp)
    requires e.combatants == [c] && e.activeCombatantId == Some(c.id)
    ensures var r := DeleteCombatant(e, c.id, now);
            r.combatants == [] && r.round == 1 && r.activeCombatantId == None
  {
    assert WithoutId([c], c.id) == [] + WithoutId([], c.id);
  }

  /** Deleting a combatant just added with a fresh id undoes the addition, except that an encounter
      that was empty ends in round 1. */
  lemma AddThenDelete(e: Encounter, input: NewCombatantInput, id: string, now1: Timestamp, now2: Timestamp)
    requires ActiveConsistent(e) && id !in Ids(e.combatants)
    ensures var r := DeleteCombatant(AddCombatant(e, input, id, now1), id, now2);
            && r.combatants == e.combatants
            && r.activeCombatantId == e.activeCombatantId
            && r.round == (if e.combatants == [] then 1 else e.round)
  {
    var added := AddCombatant(e, input, id, now1);
    assert added.combatants == e.combatants + [NewCombatant(input, id, now1)];
    WithoutIdAppend(e.combatants, [NewCombatant(input, id, now1)], id);
    WithoutAbsentId(e.combatants, id);
    assert WithoutId([NewCombatant(input, id, now1)], id) == [] + WithoutId([], id);
  }

  // ---------------------------------------------------------------------------------------------
  // updateHp
  // ---------------------------------------------------------------------------------------------

  /** `Math.max(0, Math.min(maxHp, currentHp + delta))`: never negative, never above a non-negative
      maximum, exactly `currentHp + delta` whenever that already lies in `[0, maxHp]`, and 0 under a
      negative maximum. */
  function ClampHp(maxHp: int, currentHp: int, delta: int): (hp: int)
    ensures hp >= 0
    ensures maxHp >= 0 ==> hp <= maxHp
    ensures 0 <= currentHp + delta <= maxHp ==> hp == currentHp + delta
    ensures currentHp + delta > maxHp >= 0 ==> hp == maxHp
    ensures currentHp + delta < 0 ==> hp == 0
    ensures maxHp < 0 ==> hp == 0
  {
    var capped := if currentHp + delta < maxHp then currentHp + delta else maxHp;
    if capped > 0 then capped else 0
  }

  /** The target of `updateHp`: only its current hit points and its update time change. */
  function WithHp(c: Combatant, delta: int, now: Timestamp): (r: Combatant)
    ensures r.currentHp == ClampHp(c.maxHp, c.currentHp, delta) && r.updatedAt == now
    ensures r.(currentHp := c.currentHp, updatedAt := c.updatedAt) == c
  {
    c.(currentHp := ClampHp(c.maxHp, c.currentHp, delta), updatedAt := now)
  }

  /** `updateHp`: every combatant with `id` has `delta` applied to its hit points, clamped into
      `[0, maxHp]`; every other combatant is untouched, and so is the order. */
  function UpdateHp(e: Encounter, id: string, delta: int, now: Timestamp): (r: Encounter)
    ensures |r.combatants| == |e.combatants|
    ensures forall i :: 0 <= i < |e.combatants| && e.combatants[i].id != id ==>
              r.combatants[i] == e.combatants[i]
    ensures forall i :: 0 <= i < |e.combatants| && e.combatants[i].id == id ==>
              r.combatants[i] == WithHp(e.combatants[i], delta, now)
    ensures r.round == e.round && r.activeCombatantId == e.activeCombatantId
    ensures r.id == e.id && r.name == e.name && r.createdAt == e.createdAt && r.updatedAt == now
  {
    var cs := seq(|e.combatants|, i requires 0 <= i < |e.combatants| =>
      if e.combatants[i].id == id then WithHp(e.combatants[i], delta, now) else e.combatants[i]);
    e.(combatants := cs, updatedAt := now)
  }

  /** Every combatant's hit points lie between 0 and its maximum. */
  ghost predicate HpInRange(e: Encounter) {
    forall c :: c in e.combatants ==> 0 <= c.currentHp <= c.maxHp
  }

  /** `updateHp` keeps every combatant's hit points in range, and brings the target into range even
      when it started out of range (as `addCombatant` allows), as long as its maximum is not negative. */
  lemma UpdateHpKeepsHpInRange(e: Encounter, id: string, delta: int, now: Timestamp)
    requires forall c :: c in e.combatants && c.id != id ==> 0 <= c.currentHp <= c.maxHp
    requires forall c :: c in e.combatants && c.id == id ==> c.maxHp >= 0
    ensures HpInRange(UpdateHp(e, id, delta, now))
  {
    var r := UpdateHp(e, id, delta, now);
    forall c | c in r.combatants ensures 0 <= c.currentHp <= c.maxHp {
      var i :| 0 <= i < |r.combatants| && r.combatants[i] == c;
      assert e.combatants[i] in e.combatants;
    }
  }

  /** A combatant added above its maximum is pulled down to the maximum by an `updateHp` of 0. */
  lemma UpdateHpZeroPullsDown(e: Encounter, i: nat, now: Timestamp)
    requires i < |e.combatants|
    requires 0 <= e.combatants[i].maxHp < e.combatants[i].currentHp
    ensures UpdateHp(e, e.combatants[i].id, 0, now).combatants[i].currentHp == e.combatants[i].maxHp
  {
  }

  // ---------------------------------------------------------------------------------------------
  // The active id and the ids stay well formed
  // ---------------------------------------------------------------------------------------------

  lemma AddCombatantKeepsActiveConsistent(e: Encounter, input: NewCombatantInput, id: string, now: Timestamp)
    requires ActiveConsistent(e)
    ensures ActiveConsistent(AddCombatant(e, input, id, now))
  {
    var r := AddCombatant(e, input, id, now);
    assert r.combatants == e.combatants + [NewCombatant(input, id, now)];
    assert NewCombatant(input, id, now) in r.combatants;
  }

  lemma AddFromLibraryKeepsActiveConsistent(e: Encounter, library: seq<Combatant>, templateId: string,
                                            id: string, now: Timestamp)
    requires ActiveConsistent(e)
    ensures var r := AddCombatantFromLibrary(e, library, templateId, id, now);
            r.Some? ==> ActiveConsistent(r.value)
  {
    var r := AddCombatantFromLibrary(e, library, templateId, id, now);
    if r.Some? {
      var t := FindById(library, templateId).value;
      assert CopyOf(t, id, now) in r.value.combatants;
    }
  }

  lemma DuplicateKeepsActiveConsistent(e: Encounter, sourceId: string, ids: seq<string>, now: Timestamp)
    requires ActiveConsistent(e)
    ensures var r := DuplicateCombatant(e, sourceId, ids, now);
            r.Some? ==> ActiveConsistent(r.value)
  {
  }

  lemma DeleteKeepsActiveConsistent(e: Encounter, id: string, now: Timestamp)
    requires ActiveConsistent(e)
    ensures ActiveConsistent(DeleteCombatant(e, id, now))
  {
    var remaining := WithoutId(e.combatants, id);
    var r := DeleteCombatant(e, id, now);
    if e.activeCombatantId == Some(id) {
      if remaining != [] {
        FirstInOrder(remaining);
        var first := SortByInitiativeDesc(remaining)[0];
        assert r.activeCombatantId == Some(first.id);
        assert first.id in Ids(remaining);
      }
    } else if e.activeCombatantId.Some? {
      var x := e.activeCombatantId.value;
      WithoutIdIds(e.combatants, id);
      assert x in Ids(remaining);
      assert remaining != [];
    }
  }

  lemma UpdateHpKeepsActiveConsistent(e: Encounter, id: string, delta: int, now: Timestamp)
    requires ActiveConsistent(e)
    ensures ActiveConsistent(UpdateHp(e, id, delta, now))
  {
    var r := UpdateHp(e, id, delta, now);
    assert Ids(r.combatants) == Ids(e.combatants) by {
      forall c | c in e.combatants ensures c.id in Ids(r.combatants) {
        var i :| 0 <= i < |e.combatants| && e.combatants[i] == c;
        assert r.combatants[i].id == c.id;
      }
      forall c | c in r.combatants ensures c.id in Ids(e.combatants) {
        var i :| 0 <= i < |r.combatants| && r.combatants[i] == c;
        assert e.combatants[i].id == c.id;
      }
    }
  }

  /** Appending a combatant whose id is new keeps the ids distinct. */
  lemma AppendFreshKeepsDistinct(cs: seq<Combatant>, c: Combatant)
    requires DistinctIds(cs) && c.id !in Ids(cs)
    ensures DistinctIds(cs + [c])
  {
  }

  lemma AddCombatantKeepsDistinct(e: Encounter, input: NewCombatantInput, id: string, now: Timestamp)
    requires DistinctIds(e.combatants) && id !in Ids(e.combatants)
    ensures DistinctIds(AddCombatant(e, input, id, now).combatants)
  {
    AppendFreshKeepsDistinct(e.combatants, NewCombatant(input, id, now));
  }

  /** Duplicating with pairwise distinct, fresh ids keeps the ids distinct. */
  lemma DuplicateKeepsDistinct(e: Encounter, sourceId: string, ids: seq<string>, now: Timestamp)
    requires DistinctIds(e.combatants)
    requires forall i, j :: 0 <= i < j < |ids| ==> ids[i] != ids[j]
    requires forall i :: 0 <= i < |ids| ==> ids[i] !in Ids(e.combatants)
    ensures var r := DuplicateCombatant(e, sourceId, ids, now);
            r.Some? ==> DistinctIds(r.value.combatants)
  {
    var r := DuplicateCombatant(e, sourceId, ids, now);
    if r.Some? {
      var cs := r.value.combatants;
      var n := |e.combatants|;
      forall i, j | 0 <= i < j < |cs| ensures cs[i].id != cs[j].id {
        if j >= n {
          assert cs[j].id == ids[j - n];
          if i < n { assert cs[i] in e.combatants; }
        }
      }
    }
  }

  /** Removing combatants cannot create a repeated id. */
  lemma {:induction false} WithoutIdKeepsDistinct(cs: seq<Combatant>, id: string)
    requires DistinctIds(cs)
    ensures DistinctIds(WithoutId(cs, id))
  {
    if cs != [] {
      WithoutIdKeepsDistinct(cs[1..], id);
      var rest := WithoutId(cs[1..], id);
      var r := (if cs[0].id == id then [] else [cs[0]]) + rest;
      if cs[0].id != id {
        WithoutIdMembers(cs[1..], id);
        assert forall c :: c in rest ==> c in cs[1..];
        forall i, j | 0 <= i < j < |r| ensures r[i].id != r[j].id {
          assert r[j] == rest[j - 1];
          if i > 0 { assert r[i] == rest[i - 1]; } else { assert rest[j - 1] in rest; }
        }
      }
    }
  }

  lemma UpdateHpKeepsDistinct(e: Encounter, id: string, delta: int, now: Timestamp)
    requires DistinctIds(e.combatants)
    ensures DistinctIds(UpdateHp(e, id, delta, now).combatants)
  {
    var r := UpdateHp(e, id, delta, now);
    forall i, j | 0 <= i < j < |r.combatants| ensures r.combatants[i].id != r.combatants[j].id {
      assert r.combatants[i].id == e.combatants[i].id && r.combatants[j].id == e.combatants[j].id;
    }
  }
}
