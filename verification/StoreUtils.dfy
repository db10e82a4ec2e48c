/** The helpers shared by every action of the store: a fresh blank encounter, the initiative order and
    the repair of a persisted round. */
module StoreUtils {
  import opened Wrappers
  import opened Types

  /** A new, empty encounter: round 1, nobody active, created and updated at the same instant. */
  function BlankEncounter(id: string, now: Timestamp): (e: Encounter)
    ensures e.id == id && e.name == "Encounter" && e.round == 1
    ensures e.combatants == [] && e.activeCombatantId == None
    ensures e.createdAt == now && e.updatedAt == now
  {
    Encounter(id, "Encounter", 1, [], None, now, now)
  }

  // ---------------------------------------------------------------------------------------------
  // Initiative order
  // ---------------------------------------------------------------------------------------------

  /** Initiative never increases along `cs`. */
  ghost predicate NonIncreasing(cs: seq<Combatant>) {
    forall i, j :: 0 <= i < j < |cs| ==> cs[i].initiative >= cs[j].initiative
  }

  /** The combatants of `cs` whose initiative is `k`, in the order of `cs`. */
  function WithInitiative(cs: seq<Combatant>, k: int): seq<Combatant> {
    if cs == [] then []
    else (if cs[0].initiative == k then [cs[0]] else []) + WithInitiative(cs[1..], k)
  }

  /** For every initiative value, `r` lists the combatants having it in the same order as `cs`:
      what a stable sort guarantees for ties. */
  ghost predicate KeepsTieOrder(r: seq<Combatant>, cs: seq<Combatant>) {
    forall k :: WithInitiative(r, k) == WithInitiative(cs, k)
  }

  lemma {:induction false} WithInitiativeMembers(cs: seq<Combatant>, k: int)
    ensures forall x :: x in WithInitiative(cs, k) <==> x in cs && x.initiative == k
  {
    if cs != [] {
      WithInitiativeMembers(cs[1..], k);
      assert forall x :: x in cs <==> x == cs[0] || x in cs[1..];
    }
  }

  lemma WithInitiativeCons(x: Combatant, rest: seq<Combatant>, k: int)
    ensures WithInitiative([x] + rest, k) == (if x.initiative == k then [x] else []) + WithInitiative(rest, k)
  {
    assert ([x] + rest)[1..] == rest;
  }

  /** Putting `x` in front of a non-increasing order keeps it non-increasing exactly when nobody in it
      has a higher initiative than `x`. */
  lemma ConsNonIncreasing(x: Combatant, t: seq<Combatant>)
    requires NonIncreasing(t)
    requires forall y :: y in t ==> y.initiative <= x.initiative
    ensures NonIncreasing([x] + t)
  {
    var r := [x] + t;
    forall i, j | 0 <= i < j < |r| ensures r[i].initiative >= r[j].initiative {
      assert r[j] == t[j - 1];
      if i > 0 { assert r[i] == t[i - 1]; }
    }
  }

  /** Places `c` into an order that is already non-increasing, after every combatant with a strictly
      higher initiative and before all the others. */
  function InsertByInitiative(c: Combatant, s: seq<Combatant>): (r: seq<Combatant>)
    requires NonIncreasing(s)
    ensures NonIncreasing(r)
    ensures forall x :: x in r <==> x == c || x in s
    ensures multiset(r) == multiset(s) + multiset{c}
  {
    if s == [] then [c]
    else if s[0].initiative > c.initiative then
      var rest := InsertByInitiative(c, s[1..]);
      assert s == [s[0]] + s[1..];
      assert forall y :: y in s[1..] ==> y.initiative <= s[0].initiative;
      ConsNonIncreasing(s[0], rest);
      [s[0]] + rest
    else
      ConsNonIncreasing(c, s);
      [c] + s
  }

  /** Inserting `c` puts it ahead of every combatant that already had the same initiative. */
  lemma {:induction false} InsertKeepsTies(c: Combatant, s: seq<Combatant>, k: int)
    requires NonIncreasing(s)
    ensures WithInitiative(InsertByInitiative(c, s), k) ==
            (if c.initiative == k then [c] else []) + WithInitiative(s, k)
  {
    if s != [] && s[0].initiative > c.initiative {
      assert NonIncreasing(s[1..]);
      InsertKeepsTies(c, s[1..], k);
      InsertBehindHead(c, s, k);
    } else {
      assert InsertByInitiative(c, s) == [c] + s;
      WithInitiativeCons(c, s, k);
    }
  }

  /** The step of `InsertKeepsTies` where `c` goes behind the head: the head outranks `c`, so at most
      one of the two is among the ties of `k`. */
  lemma InsertBehindHead(c: Combatant, s: seq<Combatant>, k: int)
    requires NonIncreasing(s) && s != [] && s[0].initiative > c.initiative
    requires NonIncreasing(s[1..])
    requires WithInitiative(InsertByInitiative(c, s[1..]), k) ==
             (if c.initiative == k then [c] else []) + WithInitiative(s[1..], k)
    ensures WithInitiative(InsertByInitiative(c, s), k) ==
            (if c.initiative == k then [c] else []) + WithInitiative(s, k)
  {
    var tail := s[1..];
    var rest := InsertByInitiative(c, tail);
    assert InsertByInitiative(c, s) == [s[0]] + rest;
    WithInitiativeCons(s[0], rest, k);
    assert s == [s[0]] + tail;
    WithInitiativeCons(s[0], tail, k);
    var head := if s[0].initiative == k then [s[0]] else [];
    var mine := if c.initiative == k then [c] else [];
    var wr, wt := WithInitiative(rest, k), WithInitiative(tail, k);
    assert WithInitiative(InsertByInitiative(c, s), k) == head + wr;
    assert WithInitiative(s, k) == head + wt;
    if s[0].initiative == k {
      assert mine == [] && mine + (head + wt) == head + wt;
      assert wr == wt;
    } else {
      assert head == [] && head + wr == wr && head + wt == wt;
    }
  }

  /** `[...combatants].sort((a, b) => b.initiative - a.initiative)`: a fresh sequence holding the same
      combatants, highest initiative first, ties in their original order. */
  function SortByInitiativeDesc(cs: seq<Combatant>): (r: seq<Combatant>)
    ensures NonIncreasing(r)
    ensures |r| == |cs|
    ensures multiset(r) == multiset(cs)
    ensures KeepsTieOrder(r, cs)
  {
    if cs == [] then []
    else
      var rest := SortByInitiativeDesc(cs[1..]);
      var r := InsertByInitiative(cs[0], rest);
      assert cs == [cs[0]] + cs[1..];
      forall k ensures WithInitiative(r, k) == WithInitiative(cs, k) {
        InsertKeepsTies(cs[0], rest, k);
        WithInitiativeCons(cs[0], cs[1..], k);
      }
      r
  }

  /** A combatant of `cs` shows up among the ties of its own initiative. */
  lemma HasTies(cs: seq<Combatant>, x: Combatant)
    requires x in cs
    ensures WithInitiative(cs, x.initiative) != []
  {
    WithInitiativeMembers(cs, x.initiative);
  }

  /** The head of a non-increasing order has the highest initiative in it. */
  lemma HeadIsHighest(cs: seq<Combatant>, k: int)
    requires NonIncreasing(cs) && cs != []
    requires WithInitiative(cs, k) != []
    ensures k <= cs[0].initiative
  {
    WithInitiativeMembers(cs, k);
    var y := WithInitiative(cs, k)[0];
    assert y in WithInitiative(cs, k);
    var i :| 0 <= i < |cs| && cs[i] == y;
  }

  /** Two non-increasing orders that agree on the order of every tie are the same order. */
  lemma {:induction false} SameTiesSameOrder(r: seq<Combatant>, s: seq<Combatant>)
    requires NonIncreasing(r) && NonIncreasing(s)
    requires KeepsTieOrder(r, s)
    ensures r == s
  {
    if r != [] && s == [] {
      HasTies(r, r[0]);
      assert false;
    } else if r == [] && s != [] {
      HasTies(s, s[0]);
      assert false;
    } else if r != [] {
      var a, b := r[0].initiative, s[0].initiative;
      HasTies(r, r[0]);
      HasTies(s, s[0]);
      assert WithInitiative(s, a) == WithInitiative(r, a);
      assert WithInitiative(r, b) == WithInitiative(s, b);
      HeadIsHighest(s, a);
      HeadIsHighest(r, b);
      assert r == [r[0]] + r[1..] && s == [s[0]] + s[1..];
      WithInitiativeCons(r[0], r[1..], a);
      WithInitiativeCons(s[0], s[1..], a);
      assert a == b;
      assert r[0] == WithInitiative(r, a)[0] == WithInitiative(s, a)[0] == s[0];
      forall k ensures WithInitiative(r[1..], k) == WithInitiative(s[1..], k) {
        var p := if a == k then [r[0]] else [];
        assert WithInitiative(r, k) == WithInitiative(s, k);
        WithInitiativeCons(r[0], r[1..], k);
        WithInitiativeCons(s[0], s[1..], k);
        assert WithInitiative(r[1..], k) == WithInitiative(r, k)[|p|..];
        assert WithInitiative(s[1..], k) == WithInitiative(s, k)[|p|..];
      }
      SameTiesSameOrder(r[1..], s[1..]);
    }
  }

  /** Any stable descending sort of `cs` gives `SortByInitiativeDesc(cs)`: the order is fully
      determined by the non-increasing and tie-keeping conditions. */
  lemma SortIsUnique(cs: seq<Combatant>, r: seq<Combatant>)
    requires NonIncreasing(r) && KeepsTieOrder(r, cs)
    ensures r == SortByInitiativeDesc(cs)
  {
    SameTiesSameOrder(r, SortByInitiativeDesc(cs));
  }

  /** The head of the initiative order is a member with the highest initiative, and among those the
      one that comes first in `cs`. */
  lemma FirstInOrder(cs: seq<Combatant>)
    requires cs != []
    ensures var first := SortByInitiativeDesc(cs)[0];
            && first in cs
            && (forall c :: c in cs ==> c.initiative <= first.initiative)
            && first == WithInitiative(cs, first.initiative)[0]
  {
    var r := SortByInitiativeDesc(cs);
    assert r[0] in multiset(r);
    forall c | c in cs ensures c.initiative <= r[0].initiative {
      assert c in multiset(cs);
      var i :| 0 <= i < |r| && r[i] == c;
    }
    assert WithInitiative(r, r[0].initiative)[0] == r[0];
  }

  /** When position `n` has initiative `k`, the first combatant with initiative `k` is the first one
      `WithInitiative` keeps. */
  lemma {:induction false} FirstOfInitiative(cs: seq<Combatant>, k: int, n: nat)
    requires n < |cs| && cs[n].initiative == k
    ensures exists i :: && 0 <= i < |cs| && cs[i].initiative == k
                        && (forall j :: 0 <= j < i ==> cs[j].initiative != k)
                        && WithInitiative(cs, k) != [] && WithInitiative(cs, k)[0] == cs[i]
  {
    if cs[0].initiative == k {
      assert WithInitiative(cs, k) == [cs[0]] + WithInitiative(cs[1..], k);
    } else {
      var tail := cs[1..];
      assert tail[n - 1] == cs[n];
      assert WithInitiative(cs, k) == WithInitiative(tail, k);
      FirstOfInitiative(tail, k, n - 1);
      var i :| && 0 <= i < |tail| && tail[i].initiative == k
               && (forall j :: 0 <= j < i ==> tail[j].initiative != k)
               && WithInitiative(tail, k) != [] && WithInitiative(tail, k)[0] == tail[i];
      forall j | 0 <= j < i + 1 ensures cs[j].initiative != k {
        if j > 0 { assert cs[j] == tail[j - 1]; }
      }
      assert cs[i + 1] == tail[i];
    }
  }

  /** The first of the combatants with the highest initiative sits at a position before which
      every initiative is lower. */
  lemma EarliestOfHighest(cs: seq<Combatant>, first: Combatant)
    requires first in cs && forall d :: d in cs ==> d.initiative <= first.initiative
    requires WithInitiative(cs, first.initiative) != []
    requires first == WithInitiative(cs, first.initiative)[0]
    ensures exists i :: && 0 <= i < |cs| && cs[i] == first
                        && (forall j :: 0 <= j < i ==> cs[j].initiative < first.initiative)
  {
    var n :| 0 <= n < |cs| && cs[n] == first;
    FirstOfInitiative(cs, first.initiative, n);
    var i :| && 0 <= i < |cs| && cs[i].initiative == first.initiative
             && (forall j :: 0 <= j < i ==> cs[j].initiative != first.initiative)
             && WithInitiative(cs, first.initiative) != [] && WithInitiative(cs, first.initiative)[0] == cs[i];
    forall j | 0 <= j < i ensures cs[j].initiative < first.initiative {
      assert cs[j] in cs;
    }
  }

  /** The head of the initiative order sits at a position of `cs` with the highest initiative, and
      everything before that position has a lower one: it is the earliest of the highest. */
  lemma HeadIsHighestEarliest(cs: seq<Combatant>)
    requires cs != []
    ensures exists i :: && 0 <= i < |cs| && cs[i].id == SortByInitiativeDesc(cs)[0].id
                        && (forall d :: d in cs ==> d.initiative <= cs[i].initiative)
                        && (forall j :: 0 <= j < i ==> cs[j].initiative < cs[i].initiative)
  {
    FirstInOrder(cs);
    EarliestOfHighest(cs, SortByInitiativeDesc(cs)[0]);
  }

  /** Sorting keeps exactly the same ids. */
  lemma SortKeepsIds(cs: seq<Combatant>)
    ensures Ids(SortByInitiativeDesc(cs)) == Ids(cs)
  {
    var r := SortByInitiativeDesc(cs);
    forall c | c in r ensures c in cs { assert c in multiset(r); }
    forall c | c in cs ensures c in r { assert c in multiset(cs); }
  }

  /** Putting a combatant with a new id in front of a list without repeated ids keeps them distinct. */
  lemma ConsKeepsDistinct(x: Combatant, t: seq<Combatant>)
    requires DistinctIds(t) && x.id !in Ids(t)
    ensures DistinctIds([x] + t)
  {
    var r := [x] + t;
    forall i, j | 0 <= i < j < |r| ensures r[i].id != r[j].id {
      assert r[j] == t[j - 1];
      if i > 0 { assert r[i] == t[i - 1]; } else { assert t[j - 1] in t; }
    }
  }

  /** The head of a list without repeated ids does not occur again in its tail. */
  lemma HeadNotInTail(cs: seq<Combatant>)
    requires DistinctIds(cs) && cs != []
    ensures cs[0].id !in Ids(cs[1..])
  {
    forall c | c in cs[1..] ensures c.id != cs[0].id {
      var k :| 0 <= k < |cs[1..]| && cs[1..][k] == c;
      assert cs[k + 1] == c;
    }
  }

  /** An id that neither `c` nor any member of `s` carries is still absent after inserting `c`. */
  lemma InsertKeepsAbsent(c: Combatant, s: seq<Combatant>, id: string)
    requires NonIncreasing(s) && id != c.id && id !in Ids(s)
    ensures id !in Ids(InsertByInitiative(c, s))
  {
    var r := InsertByInitiative(c, s);
    forall x | x in r ensures x.id != id {
      assert x == c || x in s;
    }
  }

  /** Inserting a combatant whose id is new keeps the ids distinct. */
  lemma {:induction false} InsertKeepsDistinct(c: Combatant, s: seq<Combatant>)
    requires NonIncreasing(s) && DistinctIds(s) && c.id !in Ids(s)
    ensures DistinctIds(InsertByInitiative(c, s))
  {
    if s == [] {
    } else if s[0].initiative > c.initiative {
      var tail := s[1..];
      assert forall y :: y in tail ==> y in s;
      assert NonIncreasing(tail) && DistinctIds(tail);
      InsertKeepsDistinct(c, tail);
      HeadNotInTail(s);
      InsertKeepsAbsent(c, tail, s[0].id);
      ConsKeepsDistinct(s[0], InsertByInitiative(c, tail));
    } else {
      ConsKeepsDistinct(c, s);
    }
  }

  /** Sorting cannot create a repeated id. */
  lemma {:induction false} SortKeepsDistinct(cs: seq<Combatant>)
    requires DistinctIds(cs)
    ensures DistinctIds(SortByInitiativeDesc(cs))
  {
    if cs != [] {
      SortKeepsDistinct(cs[1..]);
      SortKeepsIds(cs[1..]);
      HeadNotInTail(cs);
      InsertKeepsDistinct(cs[0], SortByInitiativeDesc(cs[1..]));
    }
  }

  // ---------------------------------------------------------------------------------------------
  // Round normalisation
  // ---------------------------------------------------------------------------------------------

  /** `Math.max(1, Math.floor(round))` for a finite number, and 1 for anything else. */
  function NormalizeRound(raw: RawRound): (n: int)
    ensures n >= 1
    ensures !raw.Finite? ==> n == 1
    ensures raw.Finite? && raw.value >= 1.0 ==> n == raw.value.Floor
    ensures raw.Finite? && raw.value < 1.0 ==> n == 1
  {
    match raw
    case Finite(v) => if v.Floor >= 1 then v.Floor else 1
    case _ => 1
  }

  /** `normalizeEncounter`: the same encounter with its round repaired; nothing else changes. */
  function NormalizeEncounter(e: StoredEncounter): (r: Encounter)
    ensures r.round == NormalizeRound(e.round) && r.round >= 1
    ensures r.id == e.id && r.name == e.name && r.combatants == e.combatants
    ensures r.activeCombatantId == e.activeCombatantId
    ensures r.createdAt == e.createdAt && r.updatedAt == e.updatedAt
  {
    Encounter(e.id, e.name, NormalizeRound(e.round), e.combatants, e.activeCombatantId, e.createdAt, e.updatedAt)
  }

  /** Reading back an encounter written with a whole round of at least 1 gives it back unchanged. */
  lemma NormalizeKeepsValidRound(e: Encounter)
    requires e.round >= 1
    ensures NormalizeEncounter(Stored(e)) == e
  {
  }

  /** Normalising what normalisation produced changes nothing. */
  lemma NormalizeIdempotent(e: StoredEncounter)
    ensures NormalizeEncounter(Stored(NormalizeEncounter(e))) == NormalizeEncounter(e)
  {
    NormalizeKeepsValidRound(NormalizeEncounter(e));
  }
}
