/** The browser database as the store uses it: a table of library combatants and a table of saved
    encounters, each keyed by the record's id, with insert-or-replace `put`, `delete` and the two
    ordered listings the store reads back. */
module Database {
  import opened Types
  import opened Text

  /** `r` holds every combatant of the table `m` exactly once, and nothing else. */
  ghost predicate ListsCombatants(r: seq<Combatant>, m: map<string, Combatant>) {
    && (forall c :: c in r ==> c.id in m && m[c.id] == c)
    && (forall k :: k in m ==> m[k] in r)
    && DistinctIds(r)
  }

  /** Names never decrease along `r`: the order of `orderBy("name")`. */
  ghost predicate ByName(r: seq<Combatant>) {
    forall i, j :: 0 <= i < j < |r| ==> NameLe(r[i].name, r[j].name)
  }

  /** No two encounters of the list share an id. */
  ghost predicate DistinctEncounterIds(r: seq<Encounter>) {
    forall i, j :: 0 <= i < j < |r| ==> r[i].id != r[j].id
  }

  /** `r` holds every encounter of the table `m` exactly once, and nothing else. */
  ghost predicate ListsEncounters(r: seq<Encounter>, m: map<string, Encounter>) {
    && (forall e :: e in r ==> e.id in m && m[e.id] == e)
    && (forall k :: k in m ==> m[k] in r)
    && DistinctEncounterIds(r)
  }

  /** Update times never increase along `r`: the order of `orderBy("updatedAt").reverse()`. */
  ghost predicate MostRecentFirst(r: seq<Encounter>) {
    forall i, j :: 0 <= i < j < |r| ==> r[i].updatedAt >= r[j].updatedAt
  }

  /** The combatant stored under `k` has id `k`. */
  ghost predicate CombatantUnder(m: map<string, Combatant>, k: string) {
    k in m && m[k].id == k
  }

  /** The encounter stored under `k` has id `k`. */
  ghost predicate EncounterUnder(m: map<string, Encounter>, k: string) {
    k in m && m[k].id == k
  }

  /** Among the keys `keys` of `m` there is one whose combatant's name comes first. */
  lemma FirstByNameExists(m: map<string, Combatant>, keys: set<string>)
    requires keys != {} && keys <= m.Keys
    ensures exists k :: k in keys && forall k2 :: k2 in keys ==> NameLe(m[k].name, m[k2].name)
    decreases keys
  {
    var x :| x in keys;
    if keys == {x} {
      NameLeReflexive(m[x].name);
      assert forall k2 :: k2 in keys ==> k2 == x;
    } else {
      FirstByNameExists(m, keys - {x});
      var y :| y in keys - {x} && forall k2 :: k2 in keys - {x} ==> NameLe(m[y].name, m[k2].name);
      NameLeTotal(m[x].name, m[y].name);
      if NameLe(m[x].name, m[y].name) {
        forall k2 | k2 in keys ensures NameLe(m[x].name, m[k2].name) {
          if k2 == x {
            NameLeReflexive(m[x].name);
          } else {
            NameLeTransitive(m[x].name, m[y].name, m[k2].name);
          }
        }
      } else {
        assert forall k2 :: k2 in keys ==> NameLe(m[y].name, m[k2].name);
      }
    }
  }

  /** Among the keys `keys` of `m` there is one whose encounter was updated last. */
  lemma MostRecentExists(m: map<string, Encounter>, keys: set<string>)
    requires keys != {} && keys <= m.Keys
    ensures exists k :: k in keys && forall k2 :: k2 in keys ==> m[k].updatedAt >= m[k2].updatedAt
    decreases keys
  {
    var x :| x in keys;
    if keys != {x} {
      MostRecentExists(m, keys - {x});
      var y :| y in keys - {x} && forall k2 :: k2 in keys - {x} ==> m[y].updatedAt >= m[k2].updatedAt;
      if m[x].updatedAt >= m[y].updatedAt {
        assert forall k2 :: k2 in keys ==> m[x].updatedAt >= m[k2].updatedAt;
      } else {
        assert forall k2 :: k2 in keys ==> m[y].updatedAt >= m[k2].updatedAt;
      }
    } else {
      assert forall k2 :: k2 in keys ==> k2 == x;
    }
  }

  /** Part way through listing the table `m` by name: `r` lists, in order, the combatants whose
      keys are no longer in `rest`, and each of them comes no later than any combatant still to list. */
  ghost predicate ListedByNameSoFar(r: seq<Combatant>, m: map<string, Combatant>, rest: set<string>) {
    && rest <= m.Keys
    && (forall c :: c in r ==> c.id in m && m[c.id] == c && c.id !in rest)
    && (forall k :: k in m && k !in rest ==> m[k] in r)
    && DistinctIds(r) && ByName(r)
    && (forall c, k :: c in r && k in rest ==> NameLe(c.name, m[k].name))
  }

  /** Listing next the remaining combatant whose name comes first keeps the listing in order. */
  lemma ListByNameStep(r: seq<Combatant>, m: map<string, Combatant>, rest: set<string>, k: string)
    requires ListedByNameSoFar(r, m, rest)
    requires k in rest && CombatantUnder(m, k)
    requires forall k2 :: k2 in rest ==> NameLe(m[k].name, m[k2].name)
    ensures ListedByNameSoFar(r + [m[k]], m, rest - {k})
  {
    var r2 := r + [m[k]];
    forall c | c in r2 ensures c.id in m && m[c.id] == c && c.id !in rest - {k} {
      if c !in r {
        assert c == m[k];
      }
    }
    forall i, j | 0 <= i < j < |r2| ensures r2[i].id != r2[j].id && NameLe(r2[i].name, r2[j].name) {
      if j == |r| {
        assert r2[i] in r && r2[i].id !in rest;
      } else {
        assert r2[i] == r[i] && r2[j] == r[j];
      }
    }
  }

  /** Part way through listing the table `m` by recency, as `ListedByNameSoFar` is by name. */
  ghost predicate ListedByRecencySoFar(r: seq<Encounter>, m: map<string, Encounter>, rest: set<string>) {
    && rest <= m.Keys
    && (forall e :: e in r ==> e.id in m && m[e.id] == e && e.id !in rest)
    && (forall k :: k in m && k !in rest ==> m[k] in r)
    && DistinctEncounterIds(r) && MostRecentFirst(r)
    && (forall e, k :: e in r && k in rest ==> e.updatedAt >= m[k].updatedAt)
  }

  /** Listing next the remaining encounter updated last keeps the listing in order. */
  lemma ListByRecencyStep(r: seq<Encounter>, m: map<string, Encounter>, rest: set<string>, k: string)
    requires ListedByRecencySoFar(r, m, rest)
    requires k in rest && EncounterUnder(m, k)
    requires forall k2 :: k2 in rest ==> m[k].updatedAt >= m[k2].updatedAt
    ensures ListedByRecencySoFar(r + [m[k]], m, rest - {k})
  {
    var r2 := r + [m[k]];
    forall e | e in r2 ensures e.id in m && m[e.id] == e && e.id !in rest - {k} {
      if e !in r {
        assert e == m[k];
      }
    }
    forall i, j | 0 <= i < j < |r2| ensures r2[i].id != r2[j].id && r2[i].updatedAt >= r2[j].updatedAt {
      if j == |r| {
        assert r2[i] in r && r2[i].id !in rest;
      } else {
        assert r2[i] == r[i] && r2[j] == r[j];
      }
    }
  }

  class Db {
    /** `db.combatants`: the library, by id. */
    var combatants: map<string, Combatant>
    /** `db.encounters`: the saved encounters, by id. */
    var encounters: map<string, Encounter>

    /** Each record is stored under its own id. */
    ghost predicate Valid()
      reads this
    {
      && (forall k {:trigger CombatantUnder(combatants, k)} :: k in combatants ==> CombatantUnder(combatants, k))
      && (forall k {:trigger EncounterUnder(encounters, k)} :: k in encounters ==> EncounterUnder(encounters, k))
    }

    constructor ()
      ensures Valid() && combatants == map[] && encounters == map[]
    {
      combatants := map[];
      encounters := map[];
    }

    /** `db.combatants.put(c)`: insert, or replace the record with the same id. */
    method PutCombatant(c: Combatant)
      requires Valid()
      modifies this
      ensures Valid()
      ensures combatants == old(combatants)[c.id := c] && encounters == old(encounters)
    {
      ghost var before := combatants;
      combatants := combatants[c.id := c];
      forall k | k in combatants ensures CombatantUnder(combatants, k) {
        if k != c.id {
          assert CombatantUnder(before, k);
        }
      }
    }

    /** `db.combatants.delete(id)`: a missing id is not an error. */
    method DeleteCombatant(id: string)
      requires Valid()
      modifies this
      ensures Valid()
      ensures combatants == old(combatants) - {id} && encounters == old(encounters)
    {
      ghost var before := combatants;
      combatants := combatants - {id};
      forall k | k in combatants ensures CombatantUnder(combatants, k) {
        assert CombatantUnder(before, k);
      }
    }

    /** `db.encounters.put(e)`: insert, or replace the record with the same id. */
    method PutEncounter(e: Encounter)
      requires Valid()
      modifies this
      ensures Valid()
      ensures encounters == old(encounters)[e.id := e] && combatants == old(combatants)
    {
      ghost var before := encounters;
      encounters := encounters[e.id := e];
      forall k | k in encounters ensures EncounterUnder(encounters, k) {
        if k != e.id {
          assert EncounterUnder(before, k);
        }
      }
    }

    /** `db.encounters.delete(id)`: a missing id is not an error. */
    method DeleteEncounter(id: string)
      requires Valid()
      modifies this
      ensures Valid()
      ensures encounters == old(encounters) - {id} && combatants == old(combatants)
    {
      ghost var before := encounters;
      encounters := encounters - {id};
      forall k | k in encounters ensures EncounterUnder(encounters, k) {
        assert EncounterUnder(before, k);
      }
    }

    /** `db.combatants.orderBy("name").toArray()`: every library combatant once, by name. */
    method CombatantsByName() returns (r: seq<Combatant>)
      requires Valid()
      ensures ListsCombatants(r, combatants) && ByName(r)
    {
      r := [];
      var rest := combatants.Keys;
      while rest != {}
        invariant ListedByNameSoFar(r, combatants, rest)
        decreases rest
      {
        FirstByNameExists(combatants, rest);
        var k :| k in rest && forall k2 :: k2 in rest ==> NameLe(combatants[k].name, combatants[k2].name);
        ListByNameStep(r, combatants, rest, k);
        r := r + [combatants[k]];
        rest := rest - {k};
      }
    }

    /** `db.encounters.orderBy("updatedAt").reverse().toArray()`: every saved encounter once, the most
        recently updated first. */
    method EncountersByRecency() returns (r: seq<Encounter>)
      requires Valid()
      ensures ListsEncounters(r, encounters) && MostRecentFirst(r)
    {
      r := [];
      var rest := encounters.Keys;
      while rest != {}
        invariant ListedByRecencySoFar(r, encounters, rest)
        decreases rest
      {
        MostRecentExists(encounters, rest);
        var k :| k in rest && forall k2 :: k2 in rest ==> encounters[k].updatedAt >= encounters[k2].updatedAt;
        ListByRecencyStep(r, encounters, rest, k);
        r := r + [encounters[k]];
        rest := rest - {k};
      }
    }
  }
}
