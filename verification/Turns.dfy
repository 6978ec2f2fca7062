/**
 Taking turns at a table: each entry has a list of all slots in its own order, and the entries
 take turns in claiming the first slot on their list that is still free.
 */
module Turns {
  const FREE := -1

  /** A list of slots of a table of this size. */
  ghost predicate IsList(list: seq<nat>, size: nat) {
    |list| == size && forall j :: 0 <= j < |list| ==> list[j] < size
  }

  ghost predicate Lists(lists: seq<seq<nat>>, size: nat) {
    lists != [] && size > 0 && forall e :: 0 <= e < |lists| ==> IsList(lists[e], size)
  }

  /** Every slot is on every list. */
  ghost predicate Complete(lists: seq<seq<nat>>, size: nat) {
    Lists(lists, size) && forall e, c: nat :: 0 <= e < |lists| && c < size ==> c in lists[e]
  }

  /** The first free slot on a list, from its `j`-th on. */
  ghost function Search(owner: seq<int>, list: seq<nat>, j: nat): (c: nat)
    requires IsList(list, |owner|) && j <= |list|
    ensures c < |owner| || owner == []
    decreases |list| - j
  {
    if j == |list| then 0
    else if owner[list[j]] == FREE then list[j]
    else Search(owner, list, j + 1)
  }

  /** As long as any slot on it is free, the search ends at one. */
  lemma {:induction false} SearchFinds(owner: seq<int>, list: seq<nat>, j: nat, k: nat)
    requires IsList(list, |owner|) && j <= k < |list| && owner[list[k]] == FREE
    ensures owner[Search(owner, list, j)] == FREE
    decreases |list| - j
  {
    if owner[list[j]] != FREE {
      SearchFinds(owner, list, j + 1, k);
    }
  }

  /** The slots before the `j`-th of a list are all taken. */
  ghost predicate Passed(owner: seq<int>, list: seq<nat>, j: nat) {
    IsList(list, |owner|) && j <= |list| && forall k :: 0 <= k < j ==> owner[list[k]] != FREE
  }

  /** Slots known to be taken can be passed over. */
  lemma {:induction false} SearchFrom(owner: seq<int>, list: seq<nat>, i: nat, j: nat)
    requires Passed(owner, list, j) && i <= j
    ensures Search(owner, list, i) == Search(owner, list, j)
    decreases j - i
  {
    if i < j {
      SearchFrom(owner, list, i + 1, j);
    }
  }

  /** The entry whose turn it is after so many turns. */
  function Whose(turns: nat, n: nat): (e: nat)
    requires n > 0
    ensures e < n
  {
    if turns == 0 then 0
    else
      var e := Whose(turns - 1, n);
      if e + 1 == n then 0 else e + 1
  }

  /** How often everyone has had a turn. */
  function Rounds(turns: nat, n: nat): nat
    requires n > 0
  {
    if turns == 0 then 0 else Rounds(turns - 1, n) + if Whose(turns, n) == 0 then 1 else 0
  }

  /** How often entry `e` has had a turn. */
  function TurnsOf(turns: nat, n: nat, e: nat): nat
    requires n > 0
  {
    Rounds(turns, n) + if e < Whose(turns, n) then 1 else 0
  }

  lemma TurnsOfStep(turns: nat, n: nat, e: nat)
    requires e < n
    ensures TurnsOf(turns + 1, n, e) == TurnsOf(turns, n, e) + if e == Whose(turns, n) then 1 else 0
  {
  }

  lemma NextMultiple(n: nat, r: nat)
    ensures n * (r + 1) == n * r + n
  {
  }

  lemma {:induction false} TurnsAreRounds(turns: nat, n: nat)
    requires n > 0
    ensures turns == n * Rounds(turns, n) + Whose(turns, n)
  {
    if turns > 0 {
      TurnsAreRounds(turns - 1, n);
      NextMultiple(n, Rounds(turns - 1, n));
    }
  }

  lemma Apart(n: nat, q: nat, q': nat)
    requires q > q'
    ensures n * q >= n * q' + n
  {
    var d := q - q' - 1;
    assert q == q' + 1 + d;
    assert n * q == n * q' + n + n * d;
  }

  lemma QuotientUnique(n: nat, q: nat, r: nat, q': nat, r': nat)
    requires r < n && r' < n && n * q + r == n * q' + r'
    ensures q == q' && r == r'
  {
    if q > q' {
      Apart(n, q, q');
    } else if q < q' {
      Apart(n, q', q);
    }
  }

  ghost function AllFree(size: nat): (owner: seq<int>)
    ensures |owner| == size
  {
    if size == 0 then [] else AllFree(size - 1) + [FREE]
  }

  lemma {:induction false} AllFreeCount(size: nat, e: nat)
    ensures multiset(AllFree(size))[FREE] == size && multiset(AllFree(size))[e] == 0
    ensures forall c :: 0 <= c < size ==> AllFree(size)[c] == FREE
  {
    if size > 0 {
      AllFreeCount(size - 1, e);
    }
  }

  /** Who owns each slot after so many turns. */
  ghost function Owners(lists: seq<seq<nat>>, size: nat, turns: nat): (owner: seq<int>)
    requires Lists(lists, size)
    ensures |owner| == size
  {
    if turns == 0 then AllFree(size)
    else
      var before, e := Owners(lists, size, turns - 1), Whose(turns - 1, |lists|);
      before[Search(before, lists[e], 0) := e]
  }

  /**
   Turn by turn: nobody owns anything at first, and then the entry whose turn it is, in strict
   rotation, gets the first slot on its list that nobody owns.
   */
  lemma EachTurn(lists: seq<seq<nat>>, size: nat, turns: nat) returns (k: nat)
    requires Complete(lists, size) && turns < size
    ensures forall c :: 0 <= c < size ==> Owners(lists, size, 0)[c] == -1
    ensures var owner, e := Owners(lists, size, turns), turns % |lists|;
      && k < size && owner[lists[e][k]] == -1
      && (forall j :: 0 <= j < k ==> owner[lists[e][j]] != -1)
      && Owners(lists, size, turns + 1) == owner[lists[e][k] := e]
  {
    AllFreeCount(size, 0);
    OwnersCount(lists, size, turns, 0);
    WhoseIsRemainder(turns, |lists|);
    var owner, e := Owners(lists, size, turns), Whose(turns, |lists|);
    k := FirstOnList(owner, lists, e);
    SearchFrom(owner, lists[e], 0, k);
  }

  lemma FirstOnList(owner: seq<int>, lists: seq<seq<nat>>, e: nat) returns (k: nat)
    requires Complete(lists, |owner|) && e < |lists| && multiset(owner)[FREE] > 0
    ensures k < |owner| && owner[lists[e][k]] == FREE && Passed(owner, lists[e], k)
  {
    var last := FreeOnList(owner, lists, e);
    k := 0;
    assert IsList(lists[e], |owner|);
    while owner[lists[e][k]] != FREE
      invariant k <= last && Passed(owner, lists[e], k)
      decreases last - k
    {
      k := k + 1;
    }
  }

  lemma WhoseIsRemainder(turns: nat, n: nat)
    requires n > 0
    ensures Whose(turns, n) == turns % n && Rounds(turns, n) == turns / n
  {
    TurnsAreRounds(turns, n);
    QuotientUnique(n, Rounds(turns, n), Whose(turns, n), turns / n, turns % n);
  }

  lemma {:induction false} OwnersRange(lists: seq<seq<nat>>, size: nat, turns: nat, c: nat)
    requires Lists(lists, size) && c < size
    ensures FREE <= Owners(lists, size, turns)[c] < |lists|
  {
    if turns == 0 {
      AllFreeCount(size, 0);
    } else {
      OwnersRange(lists, size, turns - 1, c);
    }
  }

  lemma AnyFree(owner: seq<int>) returns (c: nat)
    requires multiset(owner)[FREE] > 0
    ensures c < |owner| && owner[c] == FREE
  {
    assert FREE in owner;
    c :| c < |owner| && owner[c] == FREE;
  }

  /** On a complete list there is a free slot as long as there is one at all. */
  lemma FreeOnList(owner: seq<int>, lists: seq<seq<nat>>, e: nat) returns (k: nat)
    requires Complete(lists, |owner|) && e < |lists| && multiset(owner)[FREE] > 0
    ensures k < |owner| && owner[lists[e][k]] == FREE
  {
    var c := AnyFree(owner);
    assert c in lists[e];
    k :| k < |lists[e]| && lists[e][k] == c;
  }

  lemma Claimed(owner: seq<int>, c: nat, i: nat, e: nat)
    requires c < |owner| && owner[c] == FREE
    ensures multiset(owner[c := i])[FREE] == multiset(owner)[FREE] - 1
    ensures multiset(owner[c := i])[e] == multiset(owner)[e] + if e == i then 1 else 0
  {
  }

  /** A turn takes one free slot for the entry whose turn it is. */
  lemma TurnCounts(lists: seq<seq<nat>>, size: nat, turns: nat, e: nat)
    requires Complete(lists, size) && multiset(Owners(lists, size, turns))[FREE] > 0
    ensures var before, after := Owners(lists, size, turns), Owners(lists, size, turns + 1);
      && multiset(after)[FREE] == multiset(before)[FREE] - 1
      && multiset(after)[e] == multiset(before)[e] + if e == Whose(turns, |lists|) then 1 else 0
  {
    var before, i := Owners(lists, size, turns), Whose(turns, |lists|);
    var k := FreeOnList(before, lists, i);
    SearchFinds(before, lists[i], 0, k);
    Claimed(before, Search(before, lists[i], 0), i, e);
  }

  /** As many slots are free as there are turns to come, and entry `e` owns one for each turn it had. */
  ghost predicate Counted(owner: seq<int>, turns: nat, n: nat, e: nat)
    requires n > 0
  {
    multiset(owner)[FREE] == |owner| - turns && multiset(owner)[e] == TurnsOf(turns, n, e)
  }

  lemma StepCounts(lists: seq<seq<nat>>, size: nat, turns: nat, e: nat)
    requires Complete(lists, size) && turns < size && e < |lists| && Counted(Owners(lists, size, turns), turns, |lists|, e)
    ensures Counted(Owners(lists, size, turns + 1), turns + 1, |lists|, e)
  {
    TurnCounts(lists, size, turns, e);
    TurnsOfStep(turns, |lists|, e);
  }

  lemma StartCounts(lists: seq<seq<nat>>, size: nat, e: nat)
    requires Lists(lists, size)
    ensures Counted(Owners(lists, size, 0), 0, |lists|, e)
  {
    AllFreeCount(size, e);
  }

  lemma OwnersCounted(lists: seq<seq<nat>>, size: nat, turns: nat, e: nat)
    requires Complete(lists, size) && turns <= size && e < |lists|
    ensures Counted(Owners(lists, size, turns), turns, |lists|, e)
  {
    StartCounts(lists, size, e);
    var t := 0;
    while t < turns
      invariant t <= turns && Counted(Owners(lists, size, t), t, |lists|, e)
    {
      StepCounts(lists, size, t, e);
      t := t + 1;
    }
  }

  /** So the free slots and those of every entry can be counted. */
  lemma OwnersCount(lists: seq<seq<nat>>, size: nat, turns: nat, e: nat)
    requires Complete(lists, size) && turns <= size && e < |lists|
    ensures multiset(Owners(lists, size, turns))[FREE] == size - turns
    ensures multiset(Owners(lists, size, turns))[e] == TurnsOf(turns, |lists|, e)
  {
    OwnersCounted(lists, size, turns, e);
  }

  /** Every slot has one of `n` owners, the first `more` of whom have one slot more than the rest. */
  ghost predicate Balanced(owner: seq<int>, n: nat, low: nat, more: nat) {
    && (forall c :: 0 <= c < |owner| ==> 0 <= owner[c] < n)
    && (forall e :: 0 <= e < n ==> multiset(owner)[e] == low + if e < more then 1 else 0)
  }

  lemma NoneFree(owner: seq<int>, c: nat)
    requires multiset(owner)[FREE] == 0 && c < |owner|
    ensures owner[c] != FREE
  {
    assert owner[c] in multiset(owner);
  }

  lemma AllOwned(lists: seq<seq<nat>>, size: nat, c: nat)
    requires Complete(lists, size) && c < size
    ensures 0 <= Owners(lists, size, size)[c] < |lists|
  {
    OwnersCount(lists, size, size, 0);
    OwnersRange(lists, size, size, c);
    NoneFree(Owners(lists, size, size), c);
  }

  /** After as many turns as there are slots the slot counts of any two entries differ by at most one. */
  lemma TableIsBalanced(lists: seq<seq<nat>>, size: nat)
    requires Complete(lists, size)
    ensures Balanced(Owners(lists, size, size), |lists|, Rounds(size, |lists|), Whose(size, |lists|))
  {
    forall c | 0 <= c < size
      ensures 0 <= Owners(lists, size, size)[c] < |lists|
    {
      AllOwned(lists, size, c);
    }
    forall e | 0 <= e < |lists|
      ensures multiset(Owners(lists, size, size))[e] == TurnsOf(size, |lists|, e)
    {
      OwnersCount(lists, size, size, e);
    }
  }

  // ---------------------------------------------------------------- slots on behalf of someone

  /** What a slot shows: on whose behalf its owner acts, or `empty`. */
  function Shown(owner: seq<int>, onBehalf: seq<nat>, empty: nat): (table: seq<nat>)
    ensures |table| == |owner|
    ensures forall c :: 0 <= c < |owner| ==> table[c] == if 0 <= owner[c] < |onBehalf| then onBehalf[owner[c]] else empty
  {
    seq(|owner|, c requires 0 <= c < |owner| => if 0 <= owner[c] < |onBehalf| then onBehalf[owner[c]] else empty)
  }

  /** The slots that the first `k` entries own on behalf of `b`. */
  function Held(owner: seq<int>, onBehalf: seq<nat>, k: nat, b: nat): nat
    requires k <= |onBehalf|
  {
    if owner == [] then 0
    else
      var o := owner[|owner| - 1];
      Held(owner[..|owner| - 1], onBehalf, k, b) + if 0 <= o < k && onBehalf[o] == b then 1 else 0
  }

  lemma {:induction false} HeldStep(owner: seq<int>, onBehalf: seq<nat>, k: nat, b: nat)
    requires k < |onBehalf|
    ensures Held(owner, onBehalf, k + 1, b) == Held(owner, onBehalf, k, b) + if onBehalf[k] == b then multiset(owner)[k] else 0
  {
    if owner != [] {
      var m := |owner| - 1;
      HeldStep(owner[..m], onBehalf, k, b);
      assert owner == owner[..m] + [owner[m]];
    }
  }

  lemma {:induction false} HeldNone(owner: seq<int>, onBehalf: seq<nat>, b: nat)
    ensures Held(owner, onBehalf, 0, b) == 0
  {
    if owner != [] {
      HeldNone(owner[..|owner| - 1], onBehalf, b);
    }
  }

  lemma {:induction false} HeldAll(owner: seq<int>, onBehalf: seq<nat>, empty: nat, b: nat)
    requires forall c :: 0 <= c < |owner| ==> 0 <= owner[c] < |onBehalf|
    ensures Held(owner, onBehalf, |onBehalf|, b) == multiset(Shown(owner, onBehalf, empty))[b]
  {
    if owner != [] {
      var m := |owner| - 1;
      HeldAll(owner[..m], onBehalf, empty, b);
      assert Shown(owner, onBehalf, empty) == Shown(owner[..m], onBehalf, empty) + [onBehalf[owner[m]]];
    }
  }

  lemma OneMore(w: nat, low: nat)
    ensures (w + 1) * low == w * low + low && (w + 1) * (low + 1) == w * (low + 1) + low + 1
  {
  }

  /** If every entry owns `low` slots or one more, so does whoever they act for, for each of them. */
  lemma {:induction false} HeldBounds(owner: seq<int>, onBehalf: seq<nat>, k: nat, b: nat, low: nat)
    requires k <= |onBehalf| && forall e :: 0 <= e < k ==> low <= multiset(owner)[e] <= low + 1
    ensures var w := multiset(onBehalf[..k])[b];
      w * low <= Held(owner, onBehalf, k, b) <= w * (low + 1)
  {
    if k == 0 {
      HeldNone(owner, onBehalf, b);
    } else {
      HeldBounds(owner, onBehalf, k - 1, b, low);
      HeldStep(owner, onBehalf, k - 1, b);
      assert onBehalf[..k] == onBehalf[..k - 1] + [onBehalf[k - 1]];
      OneMore(multiset(onBehalf[..k - 1])[b], low);
    }
  }

  lemma BalancedShares(owner: seq<int>, n: nat, low: nat, more: nat, onBehalf: seq<nat>, empty: nat, b: nat)
    requires Balanced(owner, n, low, more) && |onBehalf| == n
    ensures var w := multiset(onBehalf)[b];
      w * low <= multiset(Shown(owner, onBehalf, empty))[b] <= w * (low + 1)
  {
    HeldBounds(owner, onBehalf, n, b, low);
    HeldAll(owner, onBehalf, empty, b);
    assert onBehalf[..n] == onBehalf;
  }

  /** In the full table everyone has the fair share of the slots for each entry, rounded down or up. */
  lemma FairShares(lists: seq<seq<nat>>, size: nat, onBehalf: seq<nat>, empty: nat, b: nat)
    requires Complete(lists, size) && |onBehalf| == |lists|
    ensures var table := Shown(Owners(lists, size, size), onBehalf, empty); var w, low := multiset(onBehalf)[b], Rounds(size, |lists|);
      w * low <= multiset(table)[b] <= w * (low + 1)
  {
    TableIsBalanced(lists, size);
    BalancedShares(Owners(lists, size, size), |lists|, Rounds(size, |lists|), Whose(size, |lists|), onBehalf, empty, b);
  }

  // ---------------------------------------------------------------- keeping one's place

  /**
   What holds between turns when every entry keeps its place on its list: the table shows the
   owners, and every slot that an entry has passed is taken.
   */
  ghost predicate Filled(lists: seq<seq<nat>>, onBehalf: seq<nat>, empty: nat, table: seq<nat>, next: seq<nat>, turns: nat) {
    && Complete(lists, |table|) && |next| == |onBehalf| == |lists| && turns <= |table|
    && table == Shown(Owners(lists, |table|, turns), onBehalf, empty)
    && forall e :: 0 <= e < |lists| ==> Passed(Owners(lists, |table|, turns), lists[e], next[e])
  }

  lemma StartsFilled(lists: seq<seq<nat>>, onBehalf: seq<nat>, empty: nat, table: seq<nat>, next: seq<nat>)
    requires Complete(lists, |table|) && |next| == |onBehalf| == |lists|
    requires (forall c :: 0 <= c < |table| ==> table[c] == empty) && forall e :: 0 <= e < |next| ==> next[e] == 0
    ensures Filled(lists, onBehalf, empty, table, next, 0)
  {
    AllFreeCount(|table|, 0);
  }

  /** A slot shows `empty` exactly while it is free, if nobody acts for `empty`. */
  lemma EmptyIsFree(lists: seq<seq<nat>>, onBehalf: seq<nat>, empty: nat, table: seq<nat>, next: seq<nat>, turns: nat, c: nat)
    requires Filled(lists, onBehalf, empty, table, next, turns) && empty !in onBehalf && c < |table|
    ensures table[c] == empty <==> Owners(lists, |table|, turns)[c] == FREE
  {
    OwnersRange(lists, |table|, turns, c);
  }

  lemma PassedStays(owner: seq<int>, list: seq<nat>, j: nat, c: nat, i: nat)
    requires Passed(owner, list, j) && c < |owner|
    ensures Passed(owner[c := i], list, j)
    ensures j < |list| && list[j] == c ==> Passed(owner[c := i], list, j + 1)
  {
  }

  lemma TurnKeepsFilled(lists: seq<seq<nat>>, onBehalf: seq<nat>, empty: nat, table: seq<nat>, next: seq<nat>, turns: nat, at: nat)
    requires Filled(lists, onBehalf, empty, table, next, turns) && turns < |table|
    requires var owner, i := Owners(lists, |table|, turns), Whose(turns, |lists|);
      at < |table| && Passed(owner, lists[i], at) && owner[lists[i][at]] == FREE
    ensures var i := Whose(turns, |lists|);
      Filled(lists, onBehalf, empty, table[lists[i][at] := onBehalf[i]], next[i := at + 1], turns + 1)
  {
    var size, i := |table|, Whose(turns, |lists|);
    var before, c := Owners(lists, size, turns), lists[i][at];
    var after := before[c := i];
    SearchFrom(before, lists[i], 0, at);
    assert Owners(lists, size, turns + 1) == after;
    assert Shown(after, onBehalf, empty) == table[c := onBehalf[i]];
    forall e | 0 <= e < |lists|
      ensures Passed(after, lists[e], next[i := at + 1][e])
    {
      PassedStays(before, lists[e], if e == i then at else next[e], c, i);
    }
  }

  /** The first `j` slots of a list are taken, as the table shows it. */
  ghost predicate Skipped(table: seq<nat>, list: seq<nat>, empty: nat, j: nat) {
    IsList(list, |table|) && j <= |list| && forall k :: 0 <= k < j ==> table[list[k]] != empty
  }

  /** An entry has only passed slots that are taken, and finds a free one ahead. */
  lemma FreeAhead(lists: seq<seq<nat>>, onBehalf: seq<nat>, empty: nat, table: seq<nat>, next: seq<nat>, turns: nat, i: nat)
    returns (k: nat)
    requires Filled(lists, onBehalf, empty, table, next, turns) && empty !in onBehalf && i < |lists| && turns < |table|
    ensures Skipped(table, lists[i], empty, next[i]) && next[i] <= k < |table| && table[lists[i][k]] == empty
  {
    var owner := Owners(lists, |table|, turns);
    OwnersCount(lists, |table|, turns, 0);
    k := FreeOnList(owner, lists, i);
    assert Passed(owner, lists[i], next[i]);
    EmptyIsFree(lists, onBehalf, empty, table, next, turns, lists[i][k]);
    forall j | 0 <= j < next[i]
      ensures table[lists[i][j]] != empty
    {
      EmptyIsFree(lists, onBehalf, empty, table, next, turns, lists[i][j]);
    }
  }

  /** Claiming the first slot that shows empty is what a turn does. */
  lemma ClaimKeepsFilled(lists: seq<seq<nat>>, onBehalf: seq<nat>, empty: nat, table: seq<nat>, next: seq<nat>, turns: nat, at: nat)
    requires Filled(lists, onBehalf, empty, table, next, turns) && empty !in onBehalf && turns < |table|
    requires var list := lists[Whose(turns, |lists|)];
      at < |table| && Skipped(table, list, empty, at) && table[list[at]] == empty
    ensures var i := Whose(turns, |lists|);
      Filled(lists, onBehalf, empty, table[lists[i][at] := onBehalf[i]], next[i := at + 1], turns + 1)
  {
    var owner, list := Owners(lists, |table|, turns), lists[Whose(turns, |lists|)];
    forall j | 0 <= j <= at
      ensures owner[list[j]] == FREE <==> table[list[j]] == empty
    {
      EmptyIsFree(lists, onBehalf, empty, table, next, turns, list[j]);
    }
    TurnKeepsFilled(lists, onBehalf, empty, table, next, turns, at);
  }
}
