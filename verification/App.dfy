/** The logic of the main screen: the parser of the add form's name field, the loop that turns
    "Goblin x4" into four numbered additions, and the values derived from the active encounter (the
    initiative order, the label of the active combatant, whether "previous turn" is disabled). */
module App {
  import opened Wrappers
  import opened Types
  import opened Text
  import opened StoreUtils
  import CombatantActions
  import EncounterActions
  import opened Database
  import Store

  // ---------------------------------------------------------------------------------------------
  // parseNameAndCount
  // ---------------------------------------------------------------------------------------------

  /** What the parser returns: the name to add and how many times. */
  datatype Parsed = Parsed(name: string, count: nat)

  /** The pattern's `x`, matched without regard to case. */
  predicate IsX(c: char) {
    c == 'x' || c == 'X'
  }

  /** The characters a regular-expression `.` does not match. */
  predicate IsLineTerminator(c: char) {
    c == '\n' || c == '\r' || c == '\U{2028}' || c == '\U{2029}'
  }

  predicate OnOneLine(s: string) {
    forall k :: 0 <= k < |s| ==> !IsLineTerminator(s[k])
  }

  /** `t` matches `^(.*)\sx(\d+)$` (ignoring case) with `p` as the first group and `ds` as the
      second: `t` is `p`, one whitespace character, an x and the digits `ds`. */
  ghost predicate SplitsAt(t: string, p: string, ds: string) {
    && |ds| >= 1 && AllDigits(ds) && OnOneLine(p)
    && |t| == |p| + 2 + |ds|
    && t[..|p|] == p && IsSpace(t[|p|]) && IsX(t[|p| + 1]) && t[|p| + 2..] == ds
  }

  /** How many digits `t` ends with. */
  function TrailingDigits(t: string): (n: nat)
    ensures n <= |t|
    ensures forall k :: |t| - n <= k < |t| ==> IsDigit(t[k])
    ensures n < |t| ==> !IsDigit(t[|t| - n - 1])
  {
    if t != [] && IsDigit(t[|t| - 1]) then TrailingDigits(t[..|t| - 1]) + 1 else 0
  }

  /** The trailing digits of `t`, as a string. */
  function DigitSuffix(t: string): (ds: string)
    ensures ds == t[|t| - TrailingDigits(t)..] && AllDigits(ds)
  {
    var n := TrailingDigits(t);
    var ds := t[|t| - n..];
    assert forall k :: 0 <= k < |ds| ==> ds[k] == t[|t| - n + k];
    ds
  }

  /** `Math.max(1, n)`. */
  function AtLeastOne(n: nat): (r: nat)
    ensures r >= 1 && (n >= 1 ==> r == n)
  {
    if n >= 1 then n else 1
  }

  /** `parseNameAndCount`: trim the input; when it ends in whitespace, an x and digits, the name is
      what comes before (trimmed again) and the count is the number the digits spell, at least 1;
      otherwise the name is the trimmed input and the count is 1. Since the digits must reach the end
      and an x is not a digit, the split can only come right before the final run of digits. */
  function ParseNameAndCount(raw: string): (r: Parsed)
    ensures r.count >= 1
    ensures IsTrimmed(r.name)
  {
    var t := Trim(raw);
    var n := TrailingDigits(t);
    if 1 <= n && n + 2 <= |t| && IsX(t[|t| - n - 1]) && IsSpace(t[|t| - n - 2]) && OnOneLine(t[..|t| - n - 2])
    then Parsed(Trim(t[..|t| - n - 2]), AtLeastOne(DigitsValue(DigitSuffix(t))))
    else Parsed(t, 1)
  }

  /** A position whose character is not a digit, followed only by digits, fixes the trailing run. */
  lemma {:induction false} TrailingDigitsAfter(t: string, k: nat)
    requires k < |t| && !IsDigit(t[k]) && AllDigits(t[k + 1..])
    ensures TrailingDigits(t) == |t| - k - 1
    decreases |t|
  {
    if k + 1 < |t| {
      var u := t[..|t| - 1];
      assert u[k] == t[k];
      assert u[k + 1..] == t[k + 1..|t| - 1];
      TrailingDigitsAfter(u, k);
    }
  }

  /** When the trimmed input ends in whitespace, an x and digits, the parser splits there: the name is
      the trimmed text before it and the count is the digits' value, at least 1. `p` may itself
      contain an earlier " x2": only the final suffix counts. */
  lemma ParseAtFinalSuffix(raw: string, p: string, ds: string)
    requires SplitsAt(Trim(raw), p, ds)
    ensures ParseNameAndCount(raw) == Parsed(Trim(p), AtLeastOne(DigitsValue(ds)))
  {
    var t := Trim(raw);
    assert t[|p| + 2..] == ds;
    TrailingDigitsAfter(t, |p| + 1);
    assert t[..|t| - |ds| - 2] == p;
  }

  /** When `t` ends in `n` digits preceded by an x and whitespace on one line, that is a split of
      `t` as the pattern reads it. */
  lemma SplitAtTrailingDigits(t: string, n: nat)
    requires n == TrailingDigits(t) && 1 <= n && n + 2 <= |t|
    ensures var p := t[..|t| - n - 2];
            IsX(t[|t| - n - 1]) && IsSpace(t[|t| - n - 2]) && OnOneLine(p) ==> SplitsAt(t, p, DigitSuffix(t))
  {
    var p := t[..|t| - n - 2];
    var ds := DigitSuffix(t);
    assert |p| == |t| - n - 2 && |ds| == n;
    assert t[..|p|] == p && t[|p| + 2..] == ds;
  }

  /** When the trimmed input has no such suffix, the name is the trimmed input and the count is 1. */
  lemma ParseWithoutSuffix(raw: string)
    requires forall p, ds :: !SplitsAt(Trim(raw), p, ds)
    ensures ParseNameAndCount(raw) == Parsed(Trim(raw), 1)
  {
    var t := Trim(raw);
    var n := TrailingDigits(t);
    if 1 <= n && n + 2 <= |t| {
      SplitAtTrailingDigits(t, n);
    }
  }

  /** A trimmed one-line name followed by a space, an x of either case and digits parses into that
      name and the digits' value, raised to 1 when it is 0: "Goblin x4" and "Goblin X4" both give
      ("Goblin", 4), and "Orc x0" gives ("Orc", 1). */
  lemma ParseNameWithCount(name: string, x: char, ds: string)
    requires name != [] && IsTrimmed(name) && OnOneLine(name)
    requires IsX(x) && |ds| >= 1 && AllDigits(ds)
    ensures ParseNameAndCount(name + " " + [x] + ds) == Parsed(name, AtLeastOne(DigitsValue(ds)))
    ensures DigitsValue(ds) == 0 ==> ParseNameAndCount(name + " " + [x] + ds).count == 1
  {
    var s := name + " " + [x] + ds;
    assert s[|s| - 1] == ds[|ds| - 1];
    TrimOfTrimmed(s);
    TrimOfTrimmed(name);
    assert s[..|name|] == name && s[|name| + 2..] == ds;
    ParseAtFinalSuffix(s, name, ds);
  }

  // ---------------------------------------------------------------------------------------------
  // handleAddCombatant
  // ---------------------------------------------------------------------------------------------

  /** The add form, its numeric fields already read as integers. */
  datatype AddForm = AddForm(
    name: string,
    kind: CombatantType,
    maxHp: int,
    currentHp: int,
    ac: int,
    initiative: int,
    saveToLibrary: bool)

  /** The name of the addition at position `index` of a bulk add: numbered from 1 when more than one
      is added, the name itself when only one is. */
  function BulkName(name: string, count: nat, index: nat): (r: string)
    ensures count > 1 ==> r == name + " " + NatToString(index + 1)
    ensures count <= 1 ==> r == name
  {
    if count > 1 then name + " " + NatToString(index + 1) else name
  }

  /** The inputs the loop hands to `addCombatant`, one per count, all with the form's statistics. */
  function BulkInputs(form: AddForm, parsed: Parsed): (inputs: seq<NewCombatantInput>)
    ensures |inputs| == parsed.count
    ensures forall i :: 0 <= i < |inputs| ==>
              inputs[i] == NewCombatantInput(BulkName(parsed.name, parsed.count, i), form.kind,
                                             form.maxHp, form.currentHp, form.ac, form.initiative)
  {
    seq(parsed.count, i requires 0 <= i < parsed.count =>
      NewCombatantInput(BulkName(parsed.name, parsed.count, i), form.kind,
                        form.maxHp, form.currentHp, form.ac, form.initiative))
  }

  /** The combatants `addCombatant` builds from the inputs, one per id and per instant. */
  function Built(inputs: seq<NewCombatantInput>, ids: seq<string>, nows: seq<Timestamp>): (cs: seq<Combatant>)
    requires |inputs| == |ids| == |nows|
    ensures |cs| == |inputs|
    ensures forall i :: 0 <= i < |inputs| ==> cs[i] == CombatantActions.NewCombatant(inputs[i], ids[i], nows[i])
  {
    seq(|inputs|, i requires 0 <= i < |inputs| => CombatantActions.NewCombatant(inputs[i], ids[i], nows[i]))
  }

  /** Building one more combatant appends it to what was built before. */
  lemma BuiltSnoc(inputs: seq<NewCombatantInput>, ids: seq<string>, nows: seq<Timestamp>)
    requires |inputs| == |ids| == |nows| > 0
    ensures var n := |inputs| - 1;
            Built(inputs, ids, nows) ==
            Built(inputs[..n], ids[..n], nows[..n]) + [CombatantActions.NewCombatant(inputs[n], ids[n], nows[n])]
  {
    var n := |inputs| - 1;
    var a := Built(inputs, ids, nows);
    var b := Built(inputs[..n], ids[..n], nows[..n]) + [CombatantActions.NewCombatant(inputs[n], ids[n], nows[n])];
    forall i | 0 <= i < |a| ensures a[i] == b[i] {
      if i < n {
        assert inputs[..n][i] == inputs[i] && ids[..n][i] == ids[i] && nows[..n][i] == nows[i];
      }
    }
  }

  /** Appending is associative. */
  lemma AppendAssoc<T>(a: seq<T>, b: seq<T>, c: seq<T>)
    ensures a + b + c == a + (b + c)
  {
  }

  /** The encounter after calling `addCombatant` once per input, in order, each call with its own id
      and its own instant. Its closed form is `BulkAddAppends`. */
  function BulkAdd(e: Encounter, inputs: seq<NewCombatantInput>, ids: seq<string>, nows: seq<Timestamp>): (r: Encounter)
    requires |inputs| == |ids| == |nows|
    ensures r.id == e.id
    decreases |inputs|
  {
    if inputs == [] then e
    else
      var n := |inputs| - 1;
      CombatantActions.AddCombatant(BulkAdd(e, inputs[..n], ids[..n], nows[..n]), inputs[n], ids[n], nows[n])
  }

  /** The bulk addition at once: the built combatants follow the existing ones in input order, the
      first of them becomes active when nobody was, and the encounter carries the instant of the last
      call when anything was added; nothing else changes. */
  lemma {:induction false} BulkAddAppends(e: Encounter, inputs: seq<NewCombatantInput>, ids: seq<string>,
                                          nows: seq<Timestamp>)
    requires |inputs| == |ids| == |nows|
    ensures BulkAdd(e, inputs, ids, nows) ==
            e.(combatants := e.combatants + Built(inputs, ids, nows),
               activeCombatantId := if e.activeCombatantId.Some? || ids == [] then e.activeCombatantId else Some(ids[0]),
               updatedAt := if nows == [] then e.updatedAt else nows[|nows| - 1])
    decreases |inputs|
  {
    if inputs == [] {
      assert e.combatants + Built(inputs, ids, nows) == e.combatants;
    } else {
      var n := |inputs| - 1;
      var prev := BulkAdd(e, inputs[..n], ids[..n], nows[..n]);
      var c := CombatantActions.NewCombatant(inputs[n], ids[n], nows[n]);
      BulkAddAppends(e, inputs[..n], ids[..n], nows[..n]);
      BuiltSnoc(inputs, ids, nows);
      var r := BulkAdd(e, inputs, ids, nows);
      assert r == CombatantActions.AddCombatant(prev, inputs[n], ids[n], nows[n]);
      assert r.combatants == e.combatants + Built(inputs[..n], ids[..n], nows[..n]) + [c];
      AppendAssoc(e.combatants, Built(inputs[..n], ids[..n], nows[..n]), [c]);
      if n > 0 {
        assert ids[..n][0] == ids[0];
      }
    }
  }

  /** Appending a space and digits to a trimmed, non-empty name leaves it trimmed. */
  lemma NumberedNameTrimmed(name: string, k: nat)
    requires name != [] && IsTrimmed(name)
    ensures Trim(name + " " + NatToString(k)) == name + " " + NatToString(k)
  {
    var s := name + " " + NatToString(k);
    var d := NatToString(k);
    assert s[|s| - 1] == d[|d| - 1];
    assert IsDigit(d[|d| - 1]);
    TrimOfTrimmed(s);
  }

  /** A bulk add of "<name> x<count>" builds `count` combatants, numbered "<name> 1" .. "<name> count"
      when there are several and named "<name>" when there is one, each with the form's statistics,
      its own id and the instant of its own call. */
  lemma BulkAddNames(form: AddForm, parsed: Parsed, ids: seq<string>, nows: seq<Timestamp>)
    requires parsed.name != [] && IsTrimmed(parsed.name)
    requires |ids| == |nows| == parsed.count
    ensures var added := Built(BulkInputs(form, parsed), ids, nows);
            && |added| == parsed.count
            && forall i :: 0 <= i < |added| ==>
                 && added[i].name == (if parsed.count > 1 then parsed.name + " " + NatToString(i + 1) else parsed.name)
                 && added[i].id == ids[i] && added[i].kind == form.kind && added[i].initiative == form.initiative
                 && added[i].maxHp == form.maxHp && added[i].currentHp == form.currentHp && added[i].ac == form.ac
                 && added[i].createdAt == nows[i]
  {
    var added := Built(BulkInputs(form, parsed), ids, nows);
    forall i | 0 <= i < |added|
      ensures added[i].name == BulkName(parsed.name, parsed.count, i)
    {
      BulkCombatantName(form, parsed, ids[i], i, nows[i]);
    }
  }

  /** The addition at position `index` keeps the numbered name as given: trimming it changes
      nothing. */
  lemma BulkCombatantName(form: AddForm, parsed: Parsed, id: string, index: nat, now: Timestamp)
    requires parsed.name != [] && IsTrimmed(parsed.name) && index < parsed.count
    ensures CombatantActions.NewCombatant(BulkInputs(form, parsed)[index], id, now).name ==
            BulkName(parsed.name, parsed.count, index)
  {
    var input := BulkInputs(form, parsed)[index];
    var name := BulkName(parsed.name, parsed.count, index);
    assert input.name == name;
    if parsed.count > 1 {
      NumberedNameTrimmed(parsed.name, index + 1);
    } else {
      TrimOfTrimmed(parsed.name);
    }
    assert Trim(name) == name;
  }

  /** The library table after `put` of each combatant in turn: a later record replaces an earlier
      one with the same id. */
  function PutAll(m: map<string, Combatant>, cs: seq<Combatant>): (r: map<string, Combatant>)
    ensures r.Keys == m.Keys + Ids(cs)
    decreases |cs|
  {
    if cs == [] then m
    else
      var n := |cs| - 1;
      assert cs == cs[..n] + [cs[n]];
      PutAll(m, cs[..n])[cs[n].id := cs[n]]
  }

  /** Combatants with distinct ids are each found under their own id after they are all put. */
  lemma {:induction false} PutAllDistinct(m: map<string, Combatant>, cs: seq<Combatant>)
    requires DistinctIds(cs)
    ensures forall i :: 0 <= i < |cs| ==> PutAll(m, cs)[cs[i].id] == cs[i]
    ensures forall k :: k in m && k !in Ids(cs) ==> PutAll(m, cs)[k] == m[k]
    decreases |cs|
  {
    if cs != [] {
      var n := |cs| - 1;
      PutAllDistinct(m, cs[..n]);
      forall i | 0 <= i < n ensures cs[i].id != cs[n].id && cs[..n][i] == cs[i] {
      }
      assert Ids(cs[..n]) <= Ids(cs) by {
        forall c | c in cs[..n] ensures c in cs {
        }
      }
    }
  }

  /** `put` of one more combatant continues `PutAll`. */
  lemma PutAllSnoc(m: map<string, Combatant>, cs: seq<Combatant>, c: Combatant)
    ensures PutAll(m, cs + [c]) == PutAll(m, cs)[c.id := c]
  {
    assert (cs + [c])[..|cs|] == cs;
  }

  /** Writing a key again overwrites the earlier write. */
  lemma UpdateAgain<K, V>(m: map<K, V>, k: K, a: V, b: V)
    ensures m[k := a][k := b] == m[k := b]
  {
  }

  /** Adding the next input continues the bulk addition and the combatants it builds. */
  lemma BulkAddNext(e0: Encounter, inputs: seq<NewCombatantInput>, ids: seq<string>, nows: seq<Timestamp>, index: nat)
    requires |inputs| == |ids| == |nows| && index < |ids|
    ensures BulkAdd(e0, inputs[..index + 1], ids[..index + 1], nows[..index + 1]) ==
            CombatantActions.AddCombatant(BulkAdd(e0, inputs[..index], ids[..index], nows[..index]),
                                          inputs[index], ids[index], nows[index])
    ensures Built(inputs[..index + 1], ids[..index + 1], nows[..index + 1]) ==
            Built(inputs[..index], ids[..index], nows[..index]) +
            [CombatantActions.NewCombatant(inputs[index], ids[index], nows[index])]
  {
    assert inputs[..index + 1][..index] == inputs[..index] && ids[..index + 1][..index] == ids[..index];
    assert nows[..index + 1][..index] == nows[..index];
    BuiltSnoc(inputs[..index + 1], ids[..index + 1], nows[..index + 1]);
  }

  /** One `addCombatant` call of the store, as far as a bulk add needs it. */
  method AddOne(store: Store.Store, input: NewCombatantInput, saveToLibrary: bool, id: string, now: Timestamp)
    requires store.Valid()
    modifies store, store.db
    ensures store.Valid()
    ensures store.activeEncounter == CombatantActions.AddCombatant(old(store.activeEncounter), input, id, now)
    ensures store.db.encounters == old(store.db.encounters)[store.activeEncounter.id := store.activeEncounter]
    ensures saveToLibrary ==>
              && store.db.combatants == old(store.db.combatants)[id := CombatantActions.NewCombatant(input, id, now)]
              && ListsCombatants(store.libraryCombatants, store.db.combatants) && ByName(store.libraryCombatants)
    ensures !saveToLibrary ==>
              store.db.combatants == old(store.db.combatants) && store.libraryCombatants == old(store.libraryCombatants)
    ensures store.encounters == old(store.encounters) && store.loading == old(store.loading)
  {
    store.AddCombatant(input, saveToLibrary, id, now);
  }

  /** The state of the store after the first `index` calls of a bulk add that started from the
      active encounter `e0`, the saved encounters `saved0`, the library table `library0` and the
      listed library `listed0`. */
  ghost predicate AddedSoFar(store: Store.Store, e0: Encounter, saved0: map<string, Encounter>,
                             library0: map<string, Combatant>, listed0: seq<Combatant>,
                             inputs: seq<NewCombatantInput>, saveToLibrary: bool, ids: seq<string>,
                             nows: seq<Timestamp>, index: nat)
    reads store, store.db
  {
    && |inputs| == |ids| == |nows| && index <= |ids|
    && store.Valid()
    && store.activeEncounter == BulkAdd(e0, inputs[..index], ids[..index], nows[..index])
    && store.db.encounters == (if index == 0 then saved0 else saved0[e0.id := store.activeEncounter])
    && (!saveToLibrary ==> store.db.combatants == library0)
    && (saveToLibrary ==>
          store.db.combatants == PutAll(library0, Built(inputs[..index], ids[..index], nows[..index])))
    && (!saveToLibrary || index == 0 ==> store.libraryCombatants == listed0)
    && (saveToLibrary && index > 0 ==>
          ListsCombatants(store.libraryCombatants, store.db.combatants) && ByName(store.libraryCombatants))
  }

  /** The `index`-th `addCombatant` call of a bulk add. */
  method AddNext(store: Store.Store, e0: Encounter, saved0: map<string, Encounter>, library0: map<string, Combatant>,
                 listed0: seq<Combatant>, inputs: seq<NewCombatantInput>, saveToLibrary: bool, ids: seq<string>,
                 nows: seq<Timestamp>, index: nat)
    requires AddedSoFar(store, e0, saved0, library0, listed0, inputs, saveToLibrary, ids, nows, index)
    requires index < |ids|
    modifies store, store.db
    ensures AddedSoFar(store, e0, saved0, library0, listed0, inputs, saveToLibrary, ids, nows, index + 1)
    ensures store.encounters == old(store.encounters) && store.loading == old(store.loading)
  {
    ghost var before := store.activeEncounter;
    BulkAddNext(e0, inputs, ids, nows, index);
    ghost var built := Built(inputs[..index], ids[..index], nows[..index]);
    ghost var c := CombatantActions.NewCombatant(inputs[index], ids[index], nows[index]);
    AddOne(store, inputs[index], saveToLibrary, ids[index], nows[index]);
    assert store.activeEncounter.id == e0.id;
    if index > 0 {
      UpdateAgain(saved0, e0.id, before, store.activeEncounter);
    }
    if saveToLibrary {
      PutAllSnoc(library0, built, c);
    }
  }

  /** The store's `addCombatant` called once per input, in order, each call with its own id and
      instant: the encounter ends as `BulkAdd` says and is written whenever anything was added; with
      `saveToLibrary` every built combatant is put into the library table in turn and the library is
      listed again, otherwise the library is untouched. */
  method AddEach(store: Store.Store, inputs: seq<NewCombatantInput>, saveToLibrary: bool, ids: seq<string>,
                 nows: seq<Timestamp>)
    requires store.Valid()
    requires |inputs| == |ids| == |nows|
    modifies store, store.db
    ensures store.Valid()
    ensures store.activeEncounter == BulkAdd(old(store.activeEncounter), inputs, ids, nows)
    ensures store.db.encounters == if ids == [] then old(store.db.encounters)
                                   else old(store.db.encounters)[store.activeEncounter.id := store.activeEncounter]
    ensures !saveToLibrary ==>
              store.db.combatants == old(store.db.combatants) && store.libraryCombatants == old(store.libraryCombatants)
    ensures saveToLibrary ==> store.db.combatants == PutAll(old(store.db.combatants), Built(inputs, ids, nows))
    ensures saveToLibrary && ids != [] ==>
              ListsCombatants(store.libraryCombatants, store.db.combatants) && ByName(store.libraryCombatants)
    ensures saveToLibrary && ids == [] ==> store.libraryCombatants == old(store.libraryCombatants)
    ensures store.encounters == old(store.encounters) && store.loading == old(store.loading)
  {
    var e0, saved0, library0, listed0 := store.activeEncounter, store.db.encounters, store.db.combatants, store.libraryCombatants;
    var index := 0;
    assert inputs[..0] == [] && Built(inputs[..0], ids[..0], nows[..0]) == [];
    while index < |ids|
      invariant 0 <= index <= |ids|
      invariant AddedSoFar(store, e0, saved0, library0, listed0, inputs, saveToLibrary, ids, nows, index)
      invariant store.encounters == old(store.encounters) && store.loading == old(store.loading)
    {
      AddNext(store, e0, saved0, library0, listed0, inputs, saveToLibrary, ids, nows, index);
      index := index + 1;
    }
    assert inputs[..index] == inputs && ids[..index] == ids && nows[..index] == nows;
    assert store.activeEncounter.id == e0.id;
  }

  /** `handleAddCombatant`: parse the name field; add nothing when the name is empty; otherwise call
      the store's `addCombatant` once per count, in order, with the numbered names, the form's
      statistics and its save-to-library choice. One id and one instant per addition are supplied. */
  method HandleAddCombatant(store: Store.Store, form: AddForm, ids: seq<string>, nows: seq<Timestamp>)
    requires store.Valid()
    requires |ids| == |nows| == ParseNameAndCount(form.name).count
    modifies store, store.db
    ensures store.Valid()
    ensures var parsed := ParseNameAndCount(form.name);
            && (parsed.name == [] ==>
                  && store.activeEncounter == old(store.activeEncounter)
                  && store.db.encounters == old(store.db.encounters)
                  && store.db.combatants == old(store.db.combatants))
            && (parsed.name != [] ==>
                  && store.activeEncounter == BulkAdd(old(store.activeEncounter), BulkInputs(form, parsed), ids, nows)
                  && store.db.encounters == old(store.db.encounters)[store.activeEncounter.id := store.activeEncounter])
    ensures !form.saveToLibrary ==> store.db.combatants == old(store.db.combatants)
    ensures (!form.saveToLibrary || ParseNameAndCount(form.name).name == []) ==>
              store.libraryCombatants == old(store.libraryCombatants)
    ensures form.saveToLibrary && ParseNameAndCount(form.name).name != [] ==>
              && store.db.combatants ==
                 PutAll(old(store.db.combatants), Built(BulkInputs(form, ParseNameAndCount(form.name)), ids, nows))
              && ListsCombatants(store.libraryCombatants, store.db.combatants) && ByName(store.libraryCombatants)
    ensures store.encounters == old(store.encounters) && store.loading == old(store.loading)
  {
    var parsed := ParseNameAndCount(form.name);
    if parsed.name == [] {
      return;
    }
    AddEach(store, BulkInputs(form, parsed), form.saveToLibrary, ids, nows);
  }

  // ---------------------------------------------------------------------------------------------
  // Derived values
  // ---------------------------------------------------------------------------------------------

  /** `orderedCombatants`: the combatants by descending initiative, ties in the order they were
      added; the same order the store uses for turns. */
  function OrderedCombatants(e: Encounter): (r: seq<Combatant>)
    ensures NonIncreasing(r) && multiset(r) == multiset(e.combatants) && KeepsTieOrder(r, e.combatants)
  {
    SortByInitiativeDesc(e.combatants)
  }

  /** `orderedCombatants.find((c) => c.id === activeCombatantId)`: the first combatant of the
      initiative order carrying the active id; a missing active id matches nobody. */
  function ActiveCombatant(e: Encounter): (r: Option<Combatant>)
    ensures r.Some? ==> r.value in e.combatants && Some(r.value.id) == e.activeCombatantId
    ensures r.Some? ==> var o := OrderedCombatants(e);
              exists i :: 0 <= i < |o| && o[i] == r.value && forall j :: 0 <= j < i ==> o[j].id != r.value.id
    ensures r.None? <==> e.activeCombatantId.None? || e.activeCombatantId.value !in Ids(e.combatants)
  {
    SortKeepsIds(e.combatants);
    var ordered := OrderedCombatants(e);
    assert forall c :: c in ordered <==> c in e.combatants by {
      assert forall c :: c in ordered <==> c in multiset(ordered);
    }
    match e.activeCombatantId
    case None => None
    case Some(id) =>
      var r := FindById(ordered, id);
      assert r.Some? ==> var i := FindIndex(ordered, id).value; ordered[i] == r.value;
      r
  }

  /** `activeLabel`: the name of the first combatant of the initiative order carrying the active id,
      or "None" when the active id names nobody. */
  function ActiveLabel(e: Encounter): (r: string)
    ensures e.activeCombatantId.None? || e.activeCombatantId.value !in Ids(e.combatants) ==> r == "None"
    ensures e.activeCombatantId.Some? && e.activeCombatantId.value in Ids(e.combatants) ==>
              exists c :: c in e.combatants && c.id == e.activeCombatantId.value && r == c.name
    ensures e.activeCombatantId.Some? && e.activeCombatantId.value in Ids(e.combatants) ==>
              var o := OrderedCombatants(e);
              exists i :: 0 <= i < |o| && o[i].id == e.activeCombatantId.value && r == o[i].name
                          && forall j :: 0 <= j < i ==> o[j].id != e.activeCombatantId.value
  {
    match ActiveCombatant(e)
    case None => "None"
    case Some(c) => c.name
  }

  /** With ids distinct, the label is the name of the one combatant the active id names. */
  lemma ActiveLabelIsName(e: Encounter, c: Combatant)
    requires DistinctIds(e.combatants)
    requires c in e.combatants && e.activeCombatantId == Some(c.id)
    ensures ActiveLabel(e) == c.name
  {
    var d := ActiveCombatant(e).value;
    var i :| 0 <= i < |e.combatants| && e.combatants[i] == c;
    var j :| 0 <= j < |e.combatants| && e.combatants[j] == d;
    assert i == j;
  }

  /** `isPreviousTurnDisabled`: nobody in the encounter, or the first round with the turn at the head
      of the initiative order. */
  function IsPreviousTurnDisabled(e: Encounter): (r: bool)
    ensures e.combatants == [] ==> r
    ensures e.combatants != [] && e.round != 1 ==> !r
    ensures e.combatants != [] && e.activeCombatantId.None? ==> !r
    ensures e.combatants != [] && e.round == 1 && e.activeCombatantId.Some? ==>
              (r <==> e.activeCombatantId.value == OrderedCombatants(e)[0].id)
  {
    var ordered := OrderedCombatants(e);
    assert |ordered| == |e.combatants| by {
      assert |multiset(ordered)| == |multiset(e.combatants)|;
    }
    ordered == [] || (e.round == 1 && e.activeCombatantId == Some(ordered[0].id))
  }

  /** Once a turn has been taken from a known position, going back is possible: either the round went
      up, or the turn moved off the head of the order. */
  lemma PreviousTurnEnabledAfterNextTurn(e: Encounter, now: Timestamp)
    requires DistinctIds(e.combatants) && e.round >= 1
    requires e.activeCombatantId.None? || e.activeCombatantId.value in Ids(e.combatants)
    requires e.combatants != []
    ensures !IsPreviousTurnDisabled(EncounterActions.NextTurn(e, now).value)
  {
    var ordered := SortByInitiativeDesc(e.combatants);
    EncounterActions.NextTurnMoves(e, now);
    SortKeepsIds(e.combatants);
    SortKeepsDistinct(e.combatants);
    var pos := EncounterActions.TurnIndex(ordered, e.activeCombatantId);
    assert ordered[0] in ordered;
    assert e.activeCombatantId.GetOr(ordered[0].id) in Ids(ordered);
    assert pos.Some?;
    var r := EncounterActions.NextTurn(e, now).value;
    if pos.value + 1 < |ordered| {
      assert r.activeCombatantId == Some(ordered[pos.value + 1].id);
      assert ordered[pos.value + 1].id != ordered[0].id;
    }
  }
}
