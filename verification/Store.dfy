/** The application store: the state the interface reads (the active encounter, the library, the
    saved encounters and a loading flag) and the actions that replace it. Every action computes the
    next state with the pure functions of `StoreUtils`, `CombatantActions` and `EncounterActions`,
    then assigns the fields and, where the action does, writes to the database. Ids and the current
    instant are passed in. */
module Store {
  import opened Wrappers
  import opened Types
  import opened StoreUtils
  import CombatantActions
  import EncounterActions
  import opened Database

  /** A saved listing holds each encounter once, so loading the id of a saved encounter gives it
      back with its round repaired, and unchanged when its round was already valid. */
  lemma ListedEncounterLoadsBack(es: seq<Encounter>, m: map<string, Encounter>, e: Encounter)
    requires ListsEncounters(es, m)
    requires e.id in m && m[e.id] == e
    ensures EncounterActions.LoadEncounter(es, e.id) == Some(NormalizeEncounter(Stored(e)))
    ensures e.round >= 1 ==> EncounterActions.LoadEncounter(es, e.id) == Some(e)
  {
    forall y | y in es && y.id == e.id ensures y == e {
    }
    assert e in es;
    if e.round >= 1 {
      NormalizeKeepsValidRound(e);
    }
  }

  class Store {
    /** True while `init` reads the database. */
    var loading: bool
    /** The library as last listed, by name. */
    var libraryCombatants: seq<Combatant>
    /** The saved encounters as last listed, most recent first. */
    var encounters: seq<Encounter>
    /** The encounter being run. */
    var activeEncounter: Encounter
    /** The database the actions write to. */
    const db: Db

    ghost predicate Valid()
      reads this, db
    {
      db.Valid()
    }

    /** The initial state: not loading, empty lists and a blank active encounter. */
    constructor(db: Db, id: string, now: Timestamp)
      requires db.Valid()
      ensures Valid()
      ensures this.db == db
      ensures !loading && libraryCombatants == [] && encounters == []
      ensures activeEncounter == BlankEncounter(id, now)
    {
      this.db := db;
      loading := false;
      libraryCombatants := [];
      encounters := [];
      activeEncounter := BlankEncounter(id, now);
    }

    /** `init`: read both listings, repair the rounds of the saved encounters and choose the active
        encounter: the repaired draft, else the most recent saved encounter, else the current one. The
        draft is what the interface last cached, read by the caller. */
    method Init(draft: Option<StoredEncounter>) returns (ghost saved: seq<Encounter>)
      requires Valid()
      modifies this
      ensures Valid() && !loading
      ensures ListsCombatants(libraryCombatants, db.combatants) && ByName(libraryCombatants)
      ensures ListsEncounters(saved, db.encounters) && MostRecentFirst(saved)
      ensures encounters == EncounterActions.NormalizeAll(saved)
      ensures activeEncounter == EncounterActions.InitialActive(draft, saved, old(activeEncounter))
      ensures forall e :: e in encounters ==> e.round >= 1
    {
      loading := true;
      var library := db.CombatantsByName();
      var listed := db.EncountersByRecency();
      EncounterActions.NormalizeAllRepairs(listed);
      loading := false;
      libraryCombatants := library;
      encounters := EncounterActions.NormalizeAll(listed);
      activeEncounter := EncounterActions.InitialActive(draft, listed, activeEncounter);
      saved := listed;
    }

    /** `createEncounter`: a blank active encounter; nothing else changes and nothing is written. */
    method CreateEncounter(id: string, now: Timestamp)
      modifies this
      ensures activeEncounter == BlankEncounter(id, now)
      ensures libraryCombatants == old(libraryCombatants) && encounters == old(encounters)
      ensures loading == old(loading)
    {
      activeEncounter := BlankEncounter(id, now);
    }

    /** Make `next` the active encounter and write it to the saved table (`persistEncounter`). */
    method Commit(next: Encounter)
      requires Valid()
      modifies this, db
      ensures Valid()
      ensures activeEncounter == next
      ensures db.encounters == old(db.encounters)[next.id := next] && db.combatants == old(db.combatants)
      ensures libraryCombatants == old(libraryCombatants) && encounters == old(encounters)
      ensures loading == old(loading)
    {
      activeEncounter := next;
      db.PutEncounter(next);
    }

    /** `db.combatants.put(c)` followed by listing the library again. */
    method PutInLibrary(c: Combatant)
      requires Valid()
      modifies this, db
      ensures Valid()
      ensures db.combatants == old(db.combatants)[c.id := c] && db.encounters == old(db.encounters)
      ensures ListsCombatants(libraryCombatants, db.combatants) && ByName(libraryCombatants)
      ensures activeEncounter == old(activeEncounter) && encounters == old(encounters)
      ensures loading == old(loading)
    {
      db.PutCombatant(c);
      libraryCombatants := db.CombatantsByName();
    }

    /** `db.encounters.orderBy("updatedAt").reverse().toArray()` into `encounters`. */
    method ListEncounters()
      requires Valid()
      modifies this
      ensures Valid()
      ensures ListsEncounters(encounters, db.encounters) && MostRecentFirst(encounters)
      ensures activeEncounter == old(activeEncounter) && libraryCombatants == old(libraryCombatants)
      ensures loading == old(loading)
    {
      encounters := db.EncountersByRecency();
    }

    /** `addCombatant(input, { saveToLibrary })`: append the new combatant and write the encounter;
        with `saveToLibrary` the very same record, id included, also goes into the library, which is
        listed again. */
    method AddCombatant(input: NewCombatantInput, saveToLibrary: bool, id: string, now: Timestamp)
      requires Valid()
      modifies this, db
      ensures Valid()
      ensures activeEncounter == CombatantActions.AddCombatant(old(activeEncounter), input, id, now)
      ensures ActiveConsistent(old(activeEncounter)) ==> ActiveConsistent(activeEncounter)
      ensures db.encounters == old(db.encounters)[activeEncounter.id := activeEncounter]
      ensures saveToLibrary ==>
                && db.combatants == old(db.combatants)[id := CombatantActions.NewCombatant(input, id, now)]
                && db.combatants[id] == activeEncounter.combatants[|activeEncounter.combatants| - 1]
                && ListsCombatants(libraryCombatants, db.combatants) && ByName(libraryCombatants)
      ensures !saveToLibrary ==> db.combatants == old(db.combatants) && libraryCombatants == old(libraryCombatants)
      ensures encounters == old(encounters) && loading == old(loading)
    {
      if ActiveConsistent(activeEncounter) {
        CombatantActions.AddCombatantKeepsActiveConsistent(activeEncounter, input, id, now);
      }
      var c := CombatantActions.NewCombatant(input, id, now);
      var next := CombatantActions.AddCombatant(activeEncounter, input, id, now);
      assert next.combatants[|next.combatants| - 1] == c;
      Commit(next);
      if saveToLibrary {
        PutInLibrary(c);
      }
    }

    /** `addCombatantFromLibrary(templateId)`: when the listed library has no such template nothing
        changes and nothing is written; otherwise its copy is appended and the encounter written. */
    method AddCombatantFromLibrary(templateId: string, id: string, now: Timestamp)
      requires Valid()
      modifies this, db
      ensures Valid()
      ensures var r := CombatantActions.AddCombatantFromLibrary(old(activeEncounter), libraryCombatants, templateId, id, now);
              && (r.None? ==> activeEncounter == old(activeEncounter) && db.encounters == old(db.encounters))
              && (r.Some? ==> activeEncounter == r.value
                              && db.encounters == old(db.encounters)[r.value.id := r.value])
      ensures ActiveConsistent(old(activeEncounter)) ==> ActiveConsistent(activeEncounter)
      ensures db.combatants == old(db.combatants)
      ensures libraryCombatants == old(libraryCombatants) && encounters == old(encounters)
      ensures loading == old(loading)
    {
      if ActiveConsistent(activeEncounter) {
        CombatantActions.AddFromLibraryKeepsActiveConsistent(activeEncounter, libraryCombatants, templateId, id, now);
      }
      var r := CombatantActions.AddCombatantFromLibrary(activeEncounter, libraryCombatants, templateId, id, now);
      if r.Some? {
        Commit(r.value);
      }
    }

    /** `duplicateCombatant(sourceId, |ids|)`: when no combatant has `sourceId` nothing changes and
        nothing is written; otherwise the copies are appended and the encounter written. */
    method DuplicateCombatant(sourceId: string, ids: seq<string>, now: Timestamp)
      requires Valid()
      modifies this, db
      ensures Valid()
      ensures var r := CombatantActions.DuplicateCombatant(old(activeEncounter), sourceId, ids, now);
              && (r.None? ==> activeEncounter == old(activeEncounter) && db.encounters == old(db.encounters))
              && (r.Some? ==> activeEncounter == r.value
                              && db.encounters == old(db.encounters)[r.value.id := r.value])
      ensures ActiveConsistent(old(activeEncounter)) ==> ActiveConsistent(activeEncounter)
      ensures db.combatants == old(db.combatants)
      ensures libraryCombatants == old(libraryCombatants) && encounters == old(encounters)
      ensures loading == old(loading)
    {
      if ActiveConsistent(activeEncounter) {
        CombatantActions.DuplicateKeepsActiveConsistent(activeEncounter, sourceId, ids, now);
      }
      var r := CombatantActions.DuplicateCombatant(activeEncounter, sourceId, ids, now);
      if r.Some? {
        Commit(r.value);
      }
    }

    /** `deleteCombatant(id)`: remove it, move the turn if it was active, and write the encounter. */
    method DeleteCombatant(id: string, now: Timestamp)
      requires Valid()
      modifies this, db
      ensures Valid()
      ensures activeEncounter == CombatantActions.DeleteCombatant(old(activeEncounter), id, now)
      ensures ActiveConsistent(old(activeEncounter)) ==> ActiveConsistent(activeEncounter)
      ensures db.encounters == old(db.encounters)[activeEncounter.id := activeEncounter]
      ensures db.combatants == old(db.combatants)
      ensures libraryCombatants == old(libraryCombatants) && encounters == old(encounters)
      ensures loading == old(loading)
    {
      if ActiveConsistent(activeEncounter) {
        CombatantActions.DeleteKeepsActiveConsistent(activeEncounter, id, now);
      }
      Commit(CombatantActions.DeleteCombatant(activeEncounter, id, now));
    }

    /** `updateHp(id, delta)`: clamp the target's hit points and write the encounter. */
    method UpdateHp(id: string, delta: int, now: Timestamp)
      requires Valid()
      modifies this, db
      ensures Valid()
      ensures activeEncounter == CombatantActions.UpdateHp(old(activeEncounter), id, delta, now)
      ensures ActiveConsistent(old(activeEncounter)) ==> ActiveConsistent(activeEncounter)
      ensures CombatantActions.HpInRange(old(activeEncounter)) ==> CombatantActions.HpInRange(activeEncounter)
      ensures db.encounters == old(db.encounters)[activeEncounter.id := activeEncounter]
      ensures db.combatants == old(db.combatants)
      ensures libraryCombatants == old(libraryCombatants) && encounters == old(encounters)
      ensures loading == old(loading)
    {
      if ActiveConsistent(activeEncounter) {
        CombatantActions.UpdateHpKeepsActiveConsistent(activeEncounter, id, delta, now);
      }
      if CombatantActions.HpInRange(activeEncounter) {
        CombatantActions.UpdateHpKeepsHpInRange(activeEncounter, id, delta, now);
      }
      Commit(CombatantActions.UpdateHp(activeEncounter, id, delta, now));
    }

    /** `nextTurn`: with nobody in the encounter nothing changes and nothing is written; otherwise the
        turn moves on and the encounter is written. */
    method NextTurn(now: Timestamp)
      requires Valid()
      modifies this, db
      ensures Valid()
      ensures old(activeEncounter).combatants == [] ==>
                activeEncounter == old(activeEncounter) && db.encounters == old(db.encounters)
      ensures old(activeEncounter).combatants != [] ==>
                && activeEncounter == EncounterActions.NextTurn(old(activeEncounter), now).value
                && db.encounters == old(db.encounters)[activeEncounter.id := activeEncounter]
      ensures ActiveConsistent(old(activeEncounter)) ==> ActiveConsistent(activeEncounter)
      ensures old(activeEncounter).combatants != [] ==> ActiveConsistent(activeEncounter)
      ensures db.combatants == old(db.combatants)
      ensures libraryCombatants == old(libraryCombatants) && encounters == old(encounters)
      ensures loading == old(loading)
    {
      EncounterActions.NextTurnMakesActiveConsistent(activeEncounter, now);
      var r := EncounterActions.NextTurn(activeEncounter, now);
      if r.Some? {
        Commit(r.value);
      }
    }

    /** `saveActiveEncounter(name)`: settle the name, write the encounter and list the saved
        encounters again. `loadEncounter` then finds the saved encounter with its round repaired,
        and exactly as it was saved when its round was valid. */
    method SaveActiveEncounter(name: Option<string>, now: Timestamp)
      requires Valid()
      modifies this, db
      ensures Valid()
      ensures activeEncounter == EncounterActions.Saved(old(activeEncounter), name, now)
      ensures db.encounters == old(db.encounters)[activeEncounter.id := activeEncounter]
      ensures ListsEncounters(encounters, db.encounters) && MostRecentFirst(encounters)
      ensures EncounterActions.LoadEncounter(encounters, activeEncounter.id)
                == Some(NormalizeEncounter(Stored(activeEncounter)))
      ensures activeEncounter.round >= 1 ==>
                EncounterActions.LoadEncounter(encounters, activeEncounter.id) == Some(activeEncounter)
      ensures db.combatants == old(db.combatants)
      ensures libraryCombatants == old(libraryCombatants) && loading == old(loading)
    {
      var next := EncounterActions.Saved(activeEncounter, name, now);
      Commit(next);
      ListEncounters();
      ListedEncounterLoadsBack(encounters, db.encounters, next);
    }

    /** `loadEncounter(id)`: when the listed saved encounters have no such id nothing changes;
        otherwise the match, its round repaired, becomes active. Nothing is written. */
    method LoadEncounter(id: string)
      modifies this
      ensures var r := EncounterActions.LoadEncounter(old(encounters), id);
              && (r.None? ==> activeEncounter == old(activeEncounter))
              && (r.Some? ==> activeEncounter == r.value)
      ensures libraryCombatants == old(libraryCombatants) && encounters == old(encounters)
      ensures loading == old(loading)
    {
      var r := EncounterActions.LoadEncounter(encounters, id);
      if r.Some? {
        activeEncounter := r.value;
      }
    }

    /** `deleteEncounter(id)`: remove it from the saved table and list the rest again; when it was the
        active encounter, the most recent remaining one (as stored) or a blank encounter takes its
        place. The replacement is not written. */
    method DeleteEncounter(id: string, blankId: string, now: Timestamp)
      requires Valid()
      modifies this, db
      ensures Valid()
      ensures db.encounters == old(db.encounters) - {id} && db.combatants == old(db.combatants)
      ensures ListsEncounters(encounters, db.encounters) && MostRecentFirst(encounters)
      ensures activeEncounter ==
                EncounterActions.ActiveAfterDelete(old(activeEncounter), id, encounters, BlankEncounter(blankId, now))
      ensures old(activeEncounter).id == id && encounters != [] ==> activeEncounter.id != id
      ensures libraryCombatants == old(libraryCombatants) && loading == old(loading)
    {
      db.DeleteEncounter(id);
      ListEncounters();
      activeEncounter := EncounterActions.ActiveAfterDelete(activeEncounter, id, encounters, BlankEncounter(blankId, now));
      if old(activeEncounter).id == id && encounters != [] {
        assert encounters[0] in encounters;
      }
    }

    /** `deleteLibraryCombatant(id)`: remove it from the library table and list the library again. */
    method DeleteLibraryCombatant(id: string)
      requires Valid()
      modifies this, db
      ensures Valid()
      ensures db.combatants == old(db.combatants) - {id} && db.encounters == old(db.encounters)
      ensures ListsCombatants(libraryCombatants, db.combatants) && ByName(libraryCombatants)
      ensures forall c :: c in libraryCombatants ==> c.id != id
      ensures activeEncounter == old(activeEncounter) && encounters == old(encounters)
      ensures loading == old(loading)
    {
      db.DeleteCombatant(id);
      libraryCombatants := db.CombatantsByName();
    }
  }
}
