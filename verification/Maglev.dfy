/**
 Maglev hashing in the dataplane: every healthy backend, repeated by weight, has its own order of
 preference over the slots of a table, and they take turns in filling it. The two hashes are
 parameters, so the results hold for every choice of them.
 */
module Maglev {
  import opened Strings
  import opened Snapshot
  import opened Turns

  const TABLE_SIZE: nat := 65537

  // ---------------------------------------------------------------- every slot is on every list

  ghost predicate Factors(p: nat, g: nat, q: nat) {
    g * q == p
  }

  ghost predicate Prime(p: nat) {
    p > 1 && forall g: nat, q: nat :: Factors(p, g, q) ==> g == 1 || q == 1
  }

  lemma NoSmallFactor(g: nat, q: nat)
    requires g * q == TABLE_SIZE
    ensures !(2 <= g <= 256)
  {
  }

  lemma TableSizeIsPrime()
    ensures Prime(TABLE_SIZE)
  {
    forall g: nat, q: nat | Factors(TABLE_SIZE, g, q)
      ensures g == 1 || q == 1
    {
      NoSmallFactor(g, q);
      NoSmallFactor(q, g);
      assert g > 256 && q > 256 ==> g * q >= 257 * 257;
    }
  }

  /** A common divisor of `a` and `b` that is a combination of both. */
  lemma {:induction false} Bezout(a: nat, b: nat) returns (x: int, y: int, g: nat, p: nat, q: nat)
    requires a > 0
    ensures a * x + b * y == g && a == g * p && b == g * q
    decreases b
  {
    if b == 0 {
      x, y, g, p, q := 1, 0, a, 1, 0;
    } else {
      var k, r := a / b, a % b;
      var x', y', p', q';
      x', y', g, p', q' := Bezout(b, r);
      x, y, p, q := y', x' - k * y', k * p' + q', p';
      BezoutStep(a, b, k, r, x', y', g, p', q');
    }
  }

  lemma BezoutStep(a: nat, b: nat, k: nat, r: nat, x: int, y: int, g: nat, p: nat, q: nat)
    requires a == k * b + r && b * x + r * y == g && b == g * p && r == g * q
    ensures a * y + b * (x - k * y) == g && a == g * (k * p + q)
  {
    calc {
      a * y + b * (x - k * y);
      (k * b + r) * y + b * x - b * (k * y);
      { assert (k * b + r) * y == k * b * y + r * y; assert b * (k * y) == k * b * y; }
      b * x + r * y;
    }
    calc {
      g * (k * p + q);
      g * (k * p) + g * q;
      { assert g * (k * p) == k * (g * p); }
      k * b + r;
    }
  }

  /** Below a prime size every skip has an inverse. */
  lemma Inverse(skip: nat, size: nat) returns (x: int, y: int)
    requires Prime(size) && 0 < skip < size
    ensures skip * x + size * y == 1
  {
    var g, p, q;
    x, y, g, p, q := Bezout(skip, size);
    assert Factors(size, g, q);
    assert q == 1 ==> skip == size * p;
    NotMultiple(skip, size, p);
  }

  lemma NotMultiple(skip: nat, size: nat, p: nat)
    requires 0 < skip < size
    ensures skip != size * p
  {
    assert p > 0 ==> size * p >= size;
  }

  /** An expanded backend: its index, and where its preference list starts and how it goes on. */
  datatype Entry = Entry(backend: nat, offset: nat, skip: nat)

  predicate Proper(e: Entry, size: nat) {
    e.offset < size && 0 < e.skip < size
  }

  /** The `j`-th slot on the preference list of an entry. */
  function Place(e: Entry, size: nat, j: nat): (c: nat)
    requires size > 0
    ensures c < size
  {
    (e.offset + j * e.skip) % size
  }

  lemma Lands(offset: nat, skip: nat, size: nat, c: nat, x: int, y: int, m: int, j: int)
    requires skip * x + size * y == 1 && j == (c - offset) * x - size * m
    ensures offset + j * skip == c + size * (-((c - offset) * y) - m * skip)
  {
    var d := c - offset;
    calc {
      j * skip;
      (d * x - size * m) * skip;
      d * x * skip - size * m * skip;
      { assert d * x * skip == d * (skip * x); assert skip * x == 1 - size * y; }
      d * (1 - size * y) - size * m * skip;
      { assert d * (1 - size * y) == d - size * (d * y); assert size * m * skip == size * (m * skip); }
      d - size * (d * y) - size * (m * skip);
      { Distribute(size, d * y, m * skip); }
      d + size * (-(d * y) - m * skip);
    }
  }

  lemma Distribute(k: int, u: int, v: int)
    ensures k * (-u - v) == -(k * u) - k * v
  {
  }

  lemma NotNegative(size: nat, c: nat, k: int)
    requires c < size
    ensures c + size * k >= 0 ==> k >= 0
  {
    assert k < 0 ==> size * k + size <= 0;
  }

  lemma ModOf(v: int, size: nat, c: nat, k: int)
    requires c < size && v >= 0 && v == c + size * k
    ensures v % size == c
  {
    NotNegative(size, c, k);
    QuotientUnique(size, v / size, v % size, k, c);
  }

  /** Every slot is on every preference list. */
  lemma Reaches(e: Entry, size: nat, c: nat) returns (j: nat)
    requires Prime(size) && Proper(e, size) && c < size
    ensures j < size && Place(e, size, j) == c
  {
    var x, y := Inverse(e.skip, size);
    var t := (c - e.offset) * x;
    j := t % size;
    var m := t / size;
    Lands(e.offset, e.skip, size, c, x, y, m, j);
    ModOf(e.offset + j * e.skip, size, c, -((c - e.offset) * y) - m * e.skip);
  }

  // ---------------------------------------------------------------- expansion by weight

  type uint16 = x: int | 0 <= x < 0x1_0000

  datatype Backend = Backend(addr: string, port: uint16, weight: uint16, healthy: bool)

  datatype Hashes = Hashes(first: string -> uint64, second: string -> uint64)

  function EntryFor(h: Hashes, b: Backend, idx: nat, r: nat): Entry {
    var key := b.addr + ":" + Decimal(b.port) + ":" + Decimal(r);
    Entry(idx, h.first(key) % TABLE_SIZE, h.second(key) % (TABLE_SIZE - 1) + 1)
  }

  function Copies(b: Backend): nat {
    if b.weight == 0 then 1 else b.weight
  }

  function Replicas(h: Hashes, b: Backend, idx: nat, w: nat): (entries: seq<Entry>)
    ensures |entries| == w
  {
    if w == 0 then [] else Replicas(h, b, idx, w - 1) + [EntryFor(h, b, idx, w - 1)]
  }

  ghost predicate Indices(healthy: seq<nat>, backends: seq<Backend>) {
    && (forall i :: 0 <= i < |healthy| ==> healthy[i] < |backends|)
    && forall i, j :: 0 <= i < j < |healthy| ==> healthy[i] != healthy[j]
  }

  /** The first `k` blocks, one after the other. */
  function FlatUpTo<T>(blocks: seq<seq<T>>, k: nat): seq<T>
    requires k <= |blocks|
  {
    if k == 0 then [] else FlatUpTo(blocks, k - 1) + blocks[k - 1]
  }

  lemma {:induction false} FlatPrefix<T>(blocks: seq<seq<T>>, k: nat, n: nat)
    requires k <= n <= |blocks|
    ensures FlatUpTo(blocks, k) <= FlatUpTo(blocks, n)
  {
    if k < n {
      FlatPrefix(blocks, k, n - 1);
    }
  }

  lemma FlatAt<T>(blocks: seq<seq<T>>, k: nat, r: nat)
    requires k < |blocks| && r < |blocks[k]|
    ensures |FlatUpTo(blocks, k)| + r < |FlatUpTo(blocks, |blocks|)|
    ensures FlatUpTo(blocks, |blocks|)[|FlatUpTo(blocks, k)| + r] == blocks[k][r]
  {
    FlatPrefix(blocks, k + 1, |blocks|);
  }

  lemma {:induction false} FlatOrigin<T>(blocks: seq<seq<T>>, n: nat, i: nat) returns (k: nat, r: nat)
    requires n <= |blocks| && i < |FlatUpTo(blocks, n)|
    ensures k < n && r < |blocks[k]| && FlatUpTo(blocks, n)[i] == blocks[k][r]
  {
    var before := |FlatUpTo(blocks, n - 1)|;
    if i < before {
      k, r := FlatOrigin(blocks, n - 1, i);
    } else {
      k, r := n - 1, i - before;
    }
  }

  /** The replicas of each chosen backend. */
  function Blocks(h: Hashes, healthy: seq<nat>, backends: seq<Backend>): (blocks: seq<seq<Entry>>)
    requires forall i :: 0 <= i < |healthy| ==> healthy[i] < |backends|
    ensures |blocks| == |healthy|
  {
    seq(|healthy|, k requires 0 <= k < |healthy| => Replicas(h, backends[healthy[k]], healthy[k], Copies(backends[healthy[k]])))
  }

  function Expanded(h: Hashes, healthy: seq<nat>, backends: seq<Backend>): seq<Entry>
    requires forall i :: 0 <= i < |healthy| ==> healthy[i] < |backends|
  {
    FlatUpTo(Blocks(h, healthy, backends), |healthy|)
  }

  /** The total weight of the first `k` chosen backends, each counting at least one. */
  function WeightUpTo(healthy: seq<nat>, backends: seq<Backend>, k: nat): nat
    requires k <= |healthy| && forall i :: 0 <= i < |healthy| ==> healthy[i] < |backends|
  {
    if k == 0 then 0
    else
      var w := backends[healthy[k - 1]].weight;
      WeightUpTo(healthy, backends, k - 1) + if w > 1 then w else 1
  }

  lemma {:induction false} ReplicasAt(h: Hashes, b: Backend, idx: nat, w: nat, r: nat)
    requires r < w
    ensures Replicas(h, b, idx, w)[r] == EntryFor(h, b, idx, r)
  {
    if r < w - 1 {
      ReplicasAt(h, b, idx, w - 1, r);
    }
  }

  /** A list of blocks, each as long as its backend weighs. */
  ghost predicate Weighs(blocks: seq<seq<Entry>>, healthy: seq<nat>, backends: seq<Backend>) {
    && |blocks| == |healthy| && (forall i :: 0 <= i < |healthy| ==> healthy[i] < |backends|)
    && forall k :: 0 <= k < |blocks| ==> |blocks[k]| == if backends[healthy[k]].weight > 1 then backends[healthy[k]].weight else 1
  }

  lemma BlocksWeigh(h: Hashes, healthy: seq<nat>, backends: seq<Backend>)
    requires forall i :: 0 <= i < |healthy| ==> healthy[i] < |backends|
    ensures Weighs(Blocks(h, healthy, backends), healthy, backends)
  {
  }

  lemma {:induction false} FlatWeight(blocks: seq<seq<Entry>>, healthy: seq<nat>, backends: seq<Backend>, k: nat)
    requires Weighs(blocks, healthy, backends) && k <= |blocks|
    ensures |FlatUpTo(blocks, k)| == WeightUpTo(healthy, backends, k)
  {
    if k > 0 {
      FlatWeight(blocks, healthy, backends, k - 1);
    }
  }

  /**
   The expansion written out: there are as many entries as the backends weigh together; the r-th
   entry of the k-th chosen backend comes after those of the backends before it; and its list
   starts and goes on by two hashes of address, port and r.
   */
  lemma ExpansionMeans(h: Hashes, healthy: seq<nat>, backends: seq<Backend>, k: nat, r: nat)
    requires k < |healthy| && forall i :: 0 <= i < |healthy| ==> healthy[i] < |backends|
    requires r < if backends[healthy[k]].weight > 1 then backends[healthy[k]].weight else 1
    ensures var entries := Expanded(h, healthy, backends); var at := WeightUpTo(healthy, backends, k) + r;
      var b := backends[healthy[k]]; var key := b.addr + ":" + Decimal(b.port) + ":" + Decimal(r);
      && |entries| == WeightUpTo(healthy, backends, |healthy|)
      && at < |entries| && entries[at].backend == healthy[k]
      && entries[at].offset == h.first(key) % 65537 && entries[at].skip == h.second(key) % 65536 + 1
  {
    TotalWeight(h, healthy, backends);
    ReplicaPlace(h, healthy, backends, k, r);
  }

  lemma TotalWeight(h: Hashes, healthy: seq<nat>, backends: seq<Backend>)
    requires forall i :: 0 <= i < |healthy| ==> healthy[i] < |backends|
    ensures |Expanded(h, healthy, backends)| == WeightUpTo(healthy, backends, |healthy|)
  {
    BlocksWeigh(h, healthy, backends);
    FlatWeight(Blocks(h, healthy, backends), healthy, backends, |healthy|);
  }

  lemma ReplicaPlace(h: Hashes, healthy: seq<nat>, backends: seq<Backend>, k: nat, r: nat)
    requires k < |healthy| && forall i :: 0 <= i < |healthy| ==> healthy[i] < |backends|
    requires r < if backends[healthy[k]].weight > 1 then backends[healthy[k]].weight else 1
    ensures WeightUpTo(healthy, backends, k) + r < |Expanded(h, healthy, backends)|
    ensures Expanded(h, healthy, backends)[WeightUpTo(healthy, backends, k) + r] == EntryFor(h, backends[healthy[k]], healthy[k], r)
  {
    BlocksWeigh(h, healthy, backends);
    FlatPlace(Blocks(h, healthy, backends), healthy, backends, k, r);
    BlockAt(h, healthy, backends, k, r);
  }

  lemma FlatPlace(blocks: seq<seq<Entry>>, healthy: seq<nat>, backends: seq<Backend>, k: nat, r: nat)
    requires Weighs(blocks, healthy, backends) && k < |blocks| && r < |blocks[k]|
    ensures WeightUpTo(healthy, backends, k) + r < |FlatUpTo(blocks, |blocks|)|
    ensures FlatUpTo(blocks, |blocks|)[WeightUpTo(healthy, backends, k) + r] == blocks[k][r]
  {
    FlatWeight(blocks, healthy, backends, k);
    FlatAt(blocks, k, r);
  }

  lemma BlockAt(h: Hashes, healthy: seq<nat>, backends: seq<Backend>, k: nat, r: nat)
    requires k < |healthy| && forall i :: 0 <= i < |healthy| ==> healthy[i] < |backends|
    requires r < |Blocks(h, healthy, backends)[k]|
    ensures Blocks(h, healthy, backends)[k][r] == EntryFor(h, backends[healthy[k]], healthy[k], r)
  {
    ReplicasAt(h, backends[healthy[k]], healthy[k], Copies(backends[healthy[k]]), r);
  }

  method ExpandOne(h: Hashes, b: Backend, idx: nat) returns (replicas: seq<Entry>)
    ensures replicas == Replicas(h, b, idx, Copies(b))
    ensures |replicas| == if b.weight > 1 then b.weight else 1
  {
    replicas := [];
    var w: nat := if b.weight > 1 then b.weight else 1;
    for r := 0 to w
      invariant replicas == Replicas(h, b, idx, r)
    {
      replicas := replicas + [EntryFor(h, b, idx, r)];
    }
  }

  method ExpandBlock(h: Hashes, healthy: seq<nat>, backends: seq<Backend>, k: nat) returns (block: seq<Entry>)
    requires k < |healthy| && forall i :: 0 <= i < |healthy| ==> healthy[i] < |backends|
    ensures block == Blocks(h, healthy, backends)[k]
  {
    block := ExpandOne(h, backends[healthy[k]], healthy[k]);
  }

  method Expand(h: Hashes, healthy: seq<nat>, backends: seq<Backend>) returns (expanded: seq<Entry>)
    requires forall i :: 0 <= i < |healthy| ==> healthy[i] < |backends|
    ensures expanded == Expanded(h, healthy, backends)
    ensures |expanded| == WeightUpTo(healthy, backends, |healthy|)
  {
    TotalWeight(h, healthy, backends);
    ghost var blocks := Blocks(h, healthy, backends);
    expanded := [];
    for k := 0 to |healthy|
      invariant expanded == FlatUpTo(blocks, k)
    {
      var block := ExpandBlock(h, healthy, backends, k);
      expanded := expanded + block;
    }
  }

  /** On whose behalf each entry claims slots. */
  function BackendsOf(entries: seq<Entry>): (out: seq<nat>)
    ensures |out| == |entries| && forall k :: 0 <= k < |entries| ==> out[k] == entries[k].backend
  {
    seq(|entries|, k requires 0 <= k < |entries| => entries[k].backend)
  }

  lemma {:induction false} ReplicasCount(h: Hashes, b: Backend, idx: nat, w: nat, c: nat)
    ensures multiset(BackendsOf(Replicas(h, b, idx, w)))[c] == if c == idx then w else 0
  {
    if w > 0 {
      ReplicasCount(h, b, idx, w - 1, c);
      BackendsConcat(Replicas(h, b, idx, w - 1), [EntryFor(h, b, idx, w - 1)]);
    }
  }

  lemma BackendsConcat(x: seq<Entry>, y: seq<Entry>)
    ensures BackendsOf(x + y) == BackendsOf(x) + BackendsOf(y)
  {
  }

  lemma {:induction false} ReplicasProper(h: Hashes, b: Backend, idx: nat, w: nat, k: nat)
    requires k < w
    ensures Proper(Replicas(h, b, idx, w)[k], TABLE_SIZE) && Replicas(h, b, idx, w)[k].backend == idx
  {
    if k < w - 1 {
      ReplicasProper(h, b, idx, w - 1, k);
    }
  }

  lemma {:induction false} CountUpTo(blocks: seq<seq<Entry>>, owners: seq<nat>, k: nat, b: nat)
    requires |blocks| == |owners| && k <= |blocks| && forall i, j :: 0 <= i < j < |owners| ==> owners[i] != owners[j]
    requires forall i :: 0 <= i < |blocks| ==> multiset(BackendsOf(blocks[i]))[b] == if owners[i] == b then |blocks[i]| else 0
    ensures forall i :: 0 <= i < k && owners[i] == b ==> multiset(BackendsOf(FlatUpTo(blocks, k)))[b] == |blocks[i]|
    ensures b !in owners[..k] ==> multiset(BackendsOf(FlatUpTo(blocks, k)))[b] == 0
  {
    if k > 0 {
      CountUpTo(blocks, owners, k - 1, b);
      BackendsConcat(FlatUpTo(blocks, k - 1), blocks[k - 1]);
      assert owners[..k] == owners[..k - 1] + [owners[k - 1]];
    }
  }

  /** Each chosen backend is there as often as it weighs, and at least once; no other is. */
  lemma ExpandedCount(h: Hashes, healthy: seq<nat>, backends: seq<Backend>, b: nat)
    requires Indices(healthy, backends)
    ensures multiset(BackendsOf(Expanded(h, healthy, backends)))[b] ==
            if b !in healthy then 0 else if backends[b].weight > 1 then backends[b].weight else 1
  {
    var blocks := Blocks(h, healthy, backends);
    BlocksWeigh(h, healthy, backends);
    forall i | 0 <= i < |blocks|
      ensures multiset(BackendsOf(blocks[i]))[b] == if healthy[i] == b then |blocks[i]| else 0
    {
      ReplicasCount(h, backends[healthy[i]], healthy[i], |blocks[i]|, b);
    }
    CountUpTo(blocks, healthy, |healthy|, b);
    assert healthy[..|healthy|] == healthy;
  }

  /** Entries as the expansion of these backends makes them. */
  ghost predicate Usable(entries: seq<Entry>, size: nat, healthy: seq<nat>) {
    entries != [] && forall k :: 0 <= k < |entries| ==> Proper(entries[k], size) && entries[k].backend in healthy
  }

  lemma ExpandedUsable(h: Hashes, healthy: seq<nat>, backends: seq<Backend>)
    requires healthy != [] && forall i :: 0 <= i < |healthy| ==> healthy[i] < |backends|
    ensures Usable(Expanded(h, healthy, backends), TABLE_SIZE, healthy)
  {
    FlatAt(Blocks(h, healthy, backends), 0, 0);
    forall k | 0 <= k < |Expanded(h, healthy, backends)|
      ensures Proper(Expanded(h, healthy, backends)[k], TABLE_SIZE) && Expanded(h, healthy, backends)[k].backend in healthy
    {
      var i, r := FlatOrigin(Blocks(h, healthy, backends), |healthy|, k);
      ReplicasProper(h, backends[healthy[i]], healthy[i], Copies(backends[healthy[i]]), r);
    }
  }

  // ---------------------------------------------------------------- the table

  /** The value of a slot that is not taken yet: the largest machine integer. */
  const EMPTY: nat := 0xffff_ffff_ffff_ffff

  /** The first `n` places on the list of an entry. */
  ghost function ListOf(e: Entry, size: nat, n: nat): (list: seq<nat>)
    requires size > 0
    ensures |list| == n
  {
    if n == 0 then [] else ListOf(e, size, n - 1) + [Place(e, size, n - 1)]
  }

  lemma {:induction false} ListOfAt(e: Entry, size: nat, n: nat, j: nat)
    requires size > 0 && j < n
    ensures ListOf(e, size, n)[j] == Place(e, size, j)
  {
    if j < n - 1 {
      ListOfAt(e, size, n - 1, j);
    }
  }

  ghost function ListsOf(entries: seq<Entry>, size: nat): (lists: seq<seq<nat>>)
    requires size > 0
    ensures |lists| == |entries| && forall e :: 0 <= e < |entries| ==> lists[e] == ListOf(entries[e], size, size)
  {
    seq(|entries|, e requires 0 <= e < |entries| => ListOf(entries[e], size, size))
  }

  lemma ListIsList(e: Entry, size: nat)
    requires size > 0
    ensures IsList(ListOf(e, size, size), size)
  {
    forall j | 0 <= j < size
      ensures ListOf(e, size, size)[j] < size
    {
      ListOfAt(e, size, size, j);
    }
  }

  lemma ListIsComplete(e: Entry, size: nat, c: nat)
    requires Prime(size) && Proper(e, size) && c < size
    ensures c in ListOf(e, size, size)
  {
    var j := Reaches(e, size, c);
    ListOfAt(e, size, size, j);
    assert ListOf(e, size, size)[j] == c;
  }

  /** If the size is prime, every slot is on the list of every entry. */
  lemma ListsAreComplete(entries: seq<Entry>, size: nat, healthy: seq<nat>)
    requires Prime(size) && Usable(entries, size, healthy)
    ensures Complete(ListsOf(entries, size), size)
  {
    var lists := ListsOf(entries, size);
    forall e | 0 <= e < |lists|
      ensures IsList(lists[e], size)
    {
      ListIsList(entries[e], size);
    }
    forall e, c: nat | 0 <= e < |lists| && c < size
      ensures c in lists[e]
    {
      ListIsComplete(entries[e], size, c);
    }
  }

  /** The table for these entries, by turns. */
  ghost function TableOf(entries: seq<Entry>, size: nat): seq<nat>
    requires size > 0 && Lists(ListsOf(entries, size), size)
  {
    Shown(Owners(ListsOf(entries, size), size, size), BackendsOf(entries), EMPTY)
  }

  /** `w` entries out of `n` have their share of the slots, each rounded down or up. */
  ghost predicate FairShare(table: seq<nat>, n: nat, b: nat, w: nat)
    requires n > 0
  {
    w * (|table| / n) <= multiset(table)[b] <= w * (|table| / n + 1)
  }

  lemma EntriesShare(entries: seq<Entry>, size: nat, b: nat)
    requires size > 0 && Complete(ListsOf(entries, size), size)
    ensures FairShare(TableOf(entries, size), |entries|, b, multiset(BackendsOf(entries))[b])
  {
    FairShares(ListsOf(entries, size), size, BackendsOf(entries), EMPTY, b);
    WhoseIsRemainder(size, |entries|);
  }

  lemma SlotsAreTaken(entries: seq<Entry>, size: nat, healthy: seq<nat>, c: nat)
    requires Usable(entries, size, healthy) && c < size && Complete(ListsOf(entries, size), size)
    ensures TableOf(entries, size)[c] in healthy
  {
    TableIsBalanced(ListsOf(entries, size), size);
    var owner := Owners(ListsOf(entries, size), size, size);
    assert 0 <= owner[c] < |entries|;
  }

  /**
   The table is full of chosen backends, and out of the total weight each has the share of the
   slots that its weight is due, rounded down or up for every unit of it.
   */
  ghost predicate GoodTable(healthy: seq<nat>, backends: seq<Backend>, table: seq<nat>) {
    && Indices(healthy, backends) && |table| == 65537
    && (forall c :: 0 <= c < |table| ==> table[c] in healthy)
    && var n := WeightUpTo(healthy, backends, |healthy|);
      && n > 0
      && forall b :: b in healthy ==>
          var w := if backends[b].weight > 1 then backends[b].weight else 1;
          w * (65537 / n) <= multiset(table)[b] <= w * (65537 / n + 1)
  }

  /**
   For every choice of backends, weights and hashes, filling the table by turns leaves no slot
   empty and gives every backend the slots that its weight is due.
   */
  lemma SharesFollowWeights(h: Hashes, healthy: seq<nat>, backends: seq<Backend>, size: nat)
    requires Indices(healthy, backends) && healthy != [] && size == TABLE_SIZE
    ensures Lists(ListsOf(Expanded(h, healthy, backends), size), size)
    ensures GoodTable(healthy, backends, TableOf(Expanded(h, healthy, backends), size))
  {
    var entries := Expanded(h, healthy, backends);
    TableSizeIsPrime();
    ExpandedUsable(h, healthy, backends);
    ListsAreComplete(entries, size, healthy);
    TotalWeight(h, healthy, backends);
    forall c | 0 <= c < size
      ensures TableOf(entries, size)[c] in healthy
    {
      SlotsAreTaken(entries, size, healthy, c);
    }
    forall b | b in healthy
      ensures FairShare(TableOf(entries, size), |entries|, b, if backends[b].weight > 1 then backends[b].weight else 1)
    {
      ExpandedCount(h, healthy, backends, b);
      EntriesShare(entries, size, b);
    }
    TableIsGood(healthy, backends, TableOf(entries, size), |entries|);
  }

  lemma TableIsGood(healthy: seq<nat>, backends: seq<Backend>, table: seq<nat>, n: nat)
    requires Indices(healthy, backends) && |table| == 65537 && n > 0 && n == WeightUpTo(healthy, backends, |healthy|)
    requires forall c :: 0 <= c < |table| ==> table[c] in healthy
    requires forall b :: b in healthy ==> FairShare(table, n, b, if backends[b].weight > 1 then backends[b].weight else 1)
    ensures GoodTable(healthy, backends, table)
  {
  }

  /** The preference lists, written out. */
  lemma ListsAre(entries: seq<Entry>, size: nat, e: nat, j: nat)
    requires e < |entries| && j < size
    ensures ListsOf(entries, size)[e][j] == (entries[e].offset + j * entries[e].skip) % size
  {
    ListOfAt(entries[e], size, size, j);
  }

  // ---------------------------------------------------------------- filling the table

  method PlaceAt(e: Entry, size: nat, j: nat) returns (c: nat)
    requires j < size
    ensures c == ListOf(e, size, size)[j]
  {
    c := (e.offset + j * e.skip) % size;
    ListOfAt(e, size, size, j);
  }

  /** Walks along the list of an entry to its first free slot. */
  method FindFree(e: Entry, ghost list: seq<nat>, table: array<nat>, from: nat, ghost k: nat) returns (c: nat, at: nat)
    requires table.Length > 0 && list == ListOf(e, table.Length, table.Length)
    requires Skipped(table[..], list, EMPTY, from) && from <= k < |list| && table[..][list[k]] == EMPTY
    ensures at < |list| && c == list[at] && table[..][c] == EMPTY && Skipped(table[..], list, EMPTY, at)
  {
    at := from;
    c := PlaceAt(e, table.Length, at);
    while table[c] != EMPTY
      invariant at <= k && c == list[at] && Skipped(table[..], list, EMPTY, at)
      decreases k - at
    {
      at := at + 1;
      c := PlaceAt(e, table.Length, at);
    }
  }

  ghost predicate FilledSoFar(entries: seq<Entry>, lists: seq<seq<nat>>, table: seq<nat>, next: seq<nat>, turns: nat) {
    && EMPTY !in BackendsOf(entries)
    && table != [] && lists == ListsOf(entries, |table|)
    && Filled(lists, BackendsOf(entries), EMPTY, table, next, turns)
  }

  /** One turn: entry `i` claims the next free slot on its list. */
  method TakeTurn(entries: seq<Entry>, ghost lists: seq<seq<nat>>, table: array<nat>, next: array<nat>, i: nat, ghost turns: nat)
    requires FilledSoFar(entries, lists, table[..], next[..], turns) && table != next && turns < table.Length
    requires i == Whose(turns, |lists|)
    modifies table, next
    ensures FilledSoFar(entries, lists, table[..], next[..], turns + 1)
  {
    ghost var t, x := table[..], next[..];
    ghost var k := FreeAhead(lists, BackendsOf(entries), EMPTY, t, x, turns, i);
    var c, at := FindFree(entries[i], lists[i], table, next[i], k);
    ClaimKeepsFilled(lists, BackendsOf(entries), EMPTY, t, x, turns, at);
    table[c] := entries[i].backend;
    next[i] := at + 1;
    assert table[..] == t[c := entries[i].backend] && next[..] == x[i := at + 1];
  }

  /** Turn after turn, each entry keeping its place on its own list, until the table is full. */
  method FillTable(entries: seq<Entry>, size: nat) returns (lookup: seq<nat>)
    requires size > 0 && Complete(ListsOf(entries, size), size) && EMPTY !in BackendsOf(entries)
    ensures lookup == TableOf(entries, size)
  {
    ghost var lists := ListsOf(entries, size);
    var table := new nat[size](i => EMPTY);
    var next := new nat[|entries|](i => 0);
    var filled := 0;
    StartsFilled(lists, BackendsOf(entries), EMPTY, table[..], next[..]);
    while filled < size
      invariant FilledSoFar(entries, lists, table[..], next[..], filled)
      invariant filled < size ==> Whose(filled, |entries|) == 0
    {
      filled := TakeRound(entries, lists, table, next, filled);
    }
    return table[..];
  }

  /** One turn for each entry, or fewer if the table is full before. */
  method TakeRound(entries: seq<Entry>, ghost lists: seq<seq<nat>>, table: array<nat>, next: array<nat>, start: nat)
    returns (filled: nat)
    requires FilledSoFar(entries, lists, table[..], next[..], start) && table != next && start < table.Length
    requires Whose(start, |entries|) == 0
    modifies table, next
    ensures start < filled && FilledSoFar(entries, lists, table[..], next[..], filled)
    ensures filled < table.Length ==> Whose(filled, |entries|) == 0
  {
    filled := start;
    for i := 0 to |entries|
      invariant FilledSoFar(entries, lists, table[..], next[..], filled)
      invariant start + i == filled < table.Length && Whose(filled, |entries|) == if i == |entries| then 0 else i
    {
      TakeTurn(entries, lists, table, next, i, filled);
      filled := filled + 1;
      if filled >= table.Length {
        break;
      }
    }
  }

  /** The lookup table for the healthy backends; there is none without any. */
  method BuildTable(h: Hashes, healthy: seq<nat>, backends: seq<Backend>) returns (lookup: seq<nat>)
    requires Indices(healthy, backends) && |backends| <= EMPTY
    ensures healthy == [] ==> lookup == []
    ensures healthy != [] ==> GoodTable(healthy, backends, lookup)
  {
    if |healthy| == 0 {
      return [];
    }
    var expanded := Expand(h, healthy, backends);
    ExpandedUsable(h, healthy, backends);
    TableSizeIsPrime();
    ListsAreComplete(expanded, TABLE_SIZE, healthy);
    lookup := FillTable(expanded, TABLE_SIZE);
    SharesFollowWeights(h, healthy, backends, TABLE_SIZE);
  }
}
