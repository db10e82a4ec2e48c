/** The records of the tracker: combatants and encounters, as the store keeps them in memory and
    writes them to the browser database. */
module Types {
  import opened Wrappers

  /** An ISO-8601 instant, represented by its milliseconds since the epoch; the text `toISOString`
      produces orders the same way as this number. */
  type Timestamp = nat

  datatype CombatantType = Player | Npc | Monster

  datatype ActionKind = Attack | Spell | Ability

  /** A named attack, spell or ability; carried along unchanged by every action of the store. */
  datatype CombatAction = CombatAction(
    id: string,
    name: string,
    kind: ActionKind,
    toHit: Option<int>,
    saveDc: Option<int>,
    damage: Option<string>,
    notes: Option<string>)

  /** A participant in combat. Hit points, armour class and initiative are integers. */
  datatype Combatant = Combatant(
    id: string,
    name: string,
    kind: CombatantType,
    maxHp: int,
    currentHp: int,
    ac: int,
    initiative: int,
    conditions: seq<string>,
    actions: seq<CombatAction>,
    createdAt: Timestamp,
    updatedAt: Timestamp)

  /** A `round` as it may come back from persisted JSON: absent, not a number, a non-finite number
      (NaN or an infinity), or a finite number that need not be a whole number. */
  datatype RawRound = Missing | NonNumeric | NonFinite | Finite(value: real)

  /** One combat session. The round is a type parameter so that the same record serves both as the
      in-memory encounter (an integer round) and as one read back from storage (a raw round). */
  datatype EncounterOf<R> = Encounter(
    id: string,
    name: string,
    round: R,
    combatants: seq<Combatant>,
    activeCombatantId: Option<string>,
    createdAt: Timestamp,
    updatedAt: Timestamp)

  type Encounter = EncounterOf<int>

  type StoredEncounter = EncounterOf<RawRound>

  /** The encounter as it is written out: its integer round becomes a finite number. */
  function Stored(e: Encounter): (s: StoredEncounter)
    ensures s.round == Finite(e.round as real)
  {
    Encounter(e.id, e.name, Finite(e.round as real), e.combatants, e.activeCombatantId, e.createdAt, e.updatedAt)
  }

  /** What the add form hands to `addCombatant`. */
  datatype NewCombatantInput = NewCombatantInput(
    name: string,
    kind: CombatantType,
    maxHp: int,
    currentHp: int,
    ac: int,
    initiative: int)

  /** The ids of a list of combatants. */
  function Ids(cs: seq<Combatant>): (ids: set<string>)
    ensures forall c :: c in cs ==> c.id in ids
    ensures forall id :: id in ids ==> exists c :: c in cs && c.id == id
  {
    set c | c in cs :: c.id
  }

  /** No two combatants of the list share an id (what fresh ids guarantee). */
  predicate DistinctIds(cs: seq<Combatant>) {
    forall i, j :: 0 <= i < j < |cs| ==> cs[i].id != cs[j].id
  }

  /** `Array.prototype.findIndex` by id: the first position holding `id`, or none. */
  function FindIndex(cs: seq<Combatant>, id: string): (r: Option<nat>)
    ensures r.Some? ==> r.value < |cs| && cs[r.value].id == id
    ensures r.Some? ==> forall j :: 0 <= j < r.value ==> cs[j].id != id
    ensures r.None? <==> id !in Ids(cs)
  {
    if cs == [] then None
    else if cs[0].id == id then Some(0)
    else
      match FindIndex(cs[1..], id)
      case None => assert cs == [cs[0]] + cs[1..]; None
      case Some(i) => Some(i + 1)
  }

  /** `Array.prototype.find` by id: the first combatant carrying `id`, or none. */
  function FindById(cs: seq<Combatant>, id: string): (r: Option<Combatant>)
    ensures r.Some? ==> r.value in cs && r.value.id == id
    ensures r.Some? ==> FindIndex(cs, id).Some? && r.value == cs[FindIndex(cs, id).value]
    ensures r.None? <==> id !in Ids(cs)
  {
    match FindIndex(cs, id)
    case None => None
    case Some(i) => Some(cs[i])
  }

  /** In a list without repeated ids, the lookup of the id found at position `i` gives `i`. */
  lemma FindIndexDistinct(cs: seq<Combatant>, i: nat)
    requires DistinctIds(cs) && i < |cs|
    ensures FindIndex(cs, cs[i].id) == Some(i)
  {
  }

  /** The active id of an encounter: nobody is active exactly when there are no combatants, and
      otherwise the active id is the id of one of them. */
  predicate ActiveConsistent(e: Encounter) {
    && (e.activeCombatantId.None? <==> e.combatants == [])
    && (e.activeCombatantId.Some? ==> e.activeCombatantId.value in Ids(e.combatants))
  }
}
