/**
 The ACME file store: one directory per primary domain, holding the certificate, its key, an
 optional issuer chain and a metadata file. Saves and deletes change the tree under a write
 lock; a listing reads the directory names under a read lock, lets go of it, and then loads one
 certificate at a time, so other operations may run between the loads.
 */
module FileStore {
  import opened Wrappers
  import opened GoTime
  import opened Strings
  import opened DomainCodec

  // ---------------------------------------------------------------- data

  /** 0000-01-01 and 10000-01-01, in Unix seconds. */
  const FIRST_SECOND := -62167219200
  const LAST_SECOND := 253402300800

  /** Times are Unix nanoseconds, in UTC. */
  datatype Certificate = Certificate(
    domains: seq<string>, certPem: string, keyPem: string, issuerPem: string,
    notBefore: int, notAfter: int, serial: string, issuer: string)

  /** The metadata file; its RFC 3339 times carry whole seconds. */
  datatype Meta = Meta(domains: seq<string>, notBefore: int, notAfter: int, serial: string, issuer: string)

  datatype Dir = Dir(cert: Option<string>, key: Option<string>, chain: Option<string>, meta: Option<Meta>)

  /** The `certs` directory: files of its own, and its subdirectories. */
  datatype Tree = Tree(root: Dir, dirs: map<string, Dir>)

  datatype StoreError = NoDomains | InvalidDomain | Missing | WriteFailed

  const EMPTY_DIR := Dir(None, None, None, None)
  const EMPTY_TREE := Tree(EMPTY_DIR, map[])

  /** The directory for an encoded name; the empty name is the `certs` directory itself. */
  function At(t: Tree, name: string): Dir {
    if name == "" then t.root else if name in t.dirs then t.dirs[name] else EMPTY_DIR
  }

  function Put(t: Tree, name: string, d: Dir): Tree {
    if name == "" then t.(root := d) else t.(dirs := t.dirs[name := d])
  }

  function Drop(t: Tree, name: string): Tree {
    if name == "" then EMPTY_TREE else t.(dirs := t.dirs - {name})
  }

  function MetaOf(c: Certificate): Meta {
    Meta(c.domains, c.notBefore / NANOS, c.notAfter / NANOS, c.serial, c.issuer)
  }

  /** Parsing the stored text back; a year outside 0 to 9999 does not parse. */
  function ReadTime(seconds: int): int {
    if FIRST_SECOND <= seconds < LAST_SECOND then seconds * NANOS else ZERO_TIME
  }

  function Load(t: Tree, domain: string): Result<Certificate, StoreError> {
    var d := At(t, Encode(domain));
    if !ValidDomain(domain) then Err(InvalidDomain)
    else if d.cert.None? || d.key.None? || d.meta.None? then Err(Missing)
    else
      var m := d.meta.value;
      Ok(Certificate(m.domains, d.cert.value, d.key.value, if d.chain.Some? then d.chain.value else "",
                     ReadTime(m.notBefore), ReadTime(m.notAfter), m.serial, m.issuer))
  }

  // ---------------------------------------------------------------- operations and runs

  /**
   A save or delete that returned success or a validation error, a save that failed part-way
   through its writes and left the directory of its domain as `left`, or one that changed nothing.
   */
  datatype Op =
    | Save(c: Certificate)
    | Delete(domain: string)
    | TornSave(domain: string, left: Dir)
    | NoOp

  /** A write that fails, and what is in that file afterwards; metadata that does not parse is none. */
  datatype Fault =
    | DirFault
    | CertFault(left: Option<string>)
    | KeyFault(left: Option<string>)
    | ChainFault(left: Option<string>)
    | MetaFault(leftMeta: Option<Meta>)

  /** The fault is on the way of the save: the chain is only written when there is one. */
  predicate Met(c: Certificate, fault: Option<Fault>) {
    fault.Some? && (fault.value.ChainFault? ==> c.issuerPem != "")
  }

  /** The operation that a save with a possible fault amounts to. */
  function Outcome(t: Tree, c: Certificate, fault: Option<Fault>): Op {
    if !Met(c, fault) || c.domains == [] then Save(c)
    else
      var d := At(t, Encode(c.domains[0]));
      match fault.value
      case DirFault => NoOp
      case CertFault(left) => TornSave(c.domains[0], d.(cert := left))
      case KeyFault(left) => TornSave(c.domains[0], d.(cert := Some(c.certPem), key := left))
      case ChainFault(left) => TornSave(c.domains[0], d.(cert := Some(c.certPem), key := Some(c.keyPem), chain := left))
      case MetaFault(left) => TornSave(c.domains[0], Written(d, c).(meta := left))
  }

  function Written(d: Dir, c: Certificate): Dir {
    Dir(Some(c.certPem), Some(c.keyPem), if c.issuerPem != "" then Some(c.issuerPem) else d.chain, Some(MetaOf(c)))
  }

  predicate Saves(op: Op, name: string) {
    op.Save? && op.c.domains != [] && ValidDomain(op.c.domains[0]) && Encode(op.c.domains[0]) == name
  }

  predicate Tears(op: Op, name: string) {
    op.TornSave? && ValidDomain(op.domain) && Encode(op.domain) == name
  }

  /** Deleting the empty domain removes the whole `certs` directory. */
  predicate Wipes(op: Op, name: string) {
    op.Delete? && ValidDomain(op.domain) && (Encode(op.domain) == name || Encode(op.domain) == "")
  }

  predicate Touches(op: Op, name: string) {
    Saves(op, name) || Tears(op, name) || Wipes(op, name)
  }

  function Apply(t: Tree, op: Op): Tree {
    match op
    case Save(c) =>
      if c.domains == [] || !ValidDomain(c.domains[0]) then t
      else
        var name := Encode(c.domains[0]);
        Put(t, name, Written(At(t, name), c))
    case Delete(domain) =>
      if ValidDomain(domain) then Drop(t, Encode(domain)) else t
    case TornSave(domain, left) =>
      if ValidDomain(domain) then Put(t, Encode(domain), left) else t
    case NoOp => t
  }

  function Run(t: Tree, ops: seq<Op>): Tree {
    if ops == [] then t else Apply(Run(t, ops[..|ops| - 1]), ops[|ops| - 1])
  }

  lemma {:induction false} RunAppend(t: Tree, a: seq<Op>, b: seq<Op>)
    ensures Run(t, a + b) == Run(Run(t, a), b)
  {
    if b == [] {
      assert a + b == a;
    } else {
      RunAppend(t, a, b[..|b| - 1]);
      assert (a + b)[..|a + b| - 1] == a + b[..|b| - 1];
    }
  }

  lemma RunThrough(before: seq<Op>, op: Op, after: seq<Op>)
    ensures Run(EMPTY_TREE, before + [op] + after) == Run(Apply(Run(EMPTY_TREE, before), op), after)
  {
    RunAppend(EMPTY_TREE, before + [op], after);
    assert (before + [op])[..|before|] == before;
  }

  /** What operations do not touch stays: a frame rule over a whole run. */
  lemma {:induction false} RunFrame(t: Tree, ops: seq<Op>, name: string)
    requires forall k :: 0 <= k < |ops| ==> !Touches(ops[k], name)
    ensures At(Run(t, ops), name) == At(t, name)
    ensures name != "" && name in t.dirs ==> name in Run(t, ops).dirs
  {
    if ops != [] {
      var last := ops[|ops| - 1];
      assert !Touches(last, name);
      RunFrame(t, ops[..|ops| - 1], name);
    }
  }

  // ---------------------------------------------------------------- store history

  /**
   Loading returns the certificate, key and metadata of the last save into the directory, with
   the times cut to whole seconds, whatever ran before it and whatever else ran after it.
   */
  lemma LastSaveLoads(before: seq<Op>, op: Op, after: seq<Op>, domain: string)
    requires ValidDomain(domain) && Saves(op, Encode(domain))
    requires forall k :: 0 <= k < |after| ==> !Touches(after[k], Encode(domain))
    ensures var r := Load(Run(EMPTY_TREE, before + [op] + after), domain); var c := op.c;
      && r.Ok?
      && r.value.certPem == c.certPem && r.value.keyPem == c.keyPem
      && r.value.domains == c.domains && r.value.serial == c.serial && r.value.issuer == c.issuer
      && (FIRST_SECOND <= c.notBefore / NANOS < LAST_SECOND ==>
            r.value.notBefore == c.notBefore - c.notBefore % NANOS)
      && (FIRST_SECOND <= c.notAfter / NANOS < LAST_SECOND ==>
            r.value.notAfter == c.notAfter - c.notAfter % NANOS)
      && (c.notBefore < -62167219200_000_000_000 || c.notBefore >= 253402300800_000_000_000 ==>
            r.value.notBefore == -62135596800_000_000_000)
      && (c.notAfter < -62167219200_000_000_000 || c.notAfter >= 253402300800_000_000_000 ==>
            r.value.notAfter == -62135596800_000_000_000)
  {
    var name, t := Encode(domain), Run(EMPTY_TREE, before);
    RunThrough(before, op, after);
    AtApplySave(t, op, name);
    RunFrame(Apply(t, op), after, name);
    WholeSeconds(op.c.notBefore);
    WholeSeconds(op.c.notAfter);
  }

  /**
   A save that met a fault has written the files before the fault, left those after it as they
   were, and touched no other directory.
   */
  lemma FaultLeaves(t: Tree, c: Certificate, fault: Fault, other: string)
    requires c.domains != [] && ValidDomain(c.domains[0]) && Met(c, Some(fault)) && other != Encode(c.domains[0])
    ensures var name := Encode(c.domains[0]); var u := Apply(t, Outcome(t, c, Some(fault)));
      && At(u, other) == At(t, other)
      && (fault.DirFault? ==> u == t)
      && (fault.KeyFault? || fault.ChainFault? || fault.MetaFault? ==> At(u, name).cert == Some(c.certPem))
      && (fault.ChainFault? || fault.MetaFault? ==> At(u, name).key == Some(c.keyPem))
      && (fault.MetaFault? && c.issuerPem != "" ==> At(u, name).chain == Some(c.issuerPem))
      && (!fault.MetaFault? ==> At(u, name).meta == At(t, name).meta)
      && (fault.CertFault? || fault.KeyFault? ==> At(u, name).chain == At(t, name).chain)
      && (fault.CertFault? ==> At(u, name).key == At(t, name).key && At(u, name).cert == fault.left)
      && (fault.KeyFault? ==> At(u, name).key == fault.left)
      && (fault.ChainFault? ==> At(u, name).chain == fault.left)
      && (fault.MetaFault? ==> At(u, name).meta == fault.leftMeta)
  {
  }

  lemma AtApplySave(t: Tree, op: Op, name: string)
    requires Saves(op, name)
    ensures At(Apply(t, op), name) == Written(At(t, name), op.c)
  {
  }

  lemma WholeSeconds(t: int)
    ensures FIRST_SECOND <= t / NANOS < LAST_SECOND ==> ReadTime(t / NANOS) == t - t % NANOS
    ensures t < -62167219200_000_000_000 || t >= 253402300800_000_000_000 ==> ReadTime(t / NANOS) == -62135596800_000_000_000
  {
  }

  /** Anything this operation does to the directory is a save that carries no chain. */
  predicate KeepsChain(op: Op, name: string) {
    Touches(op, name) ==> Saves(op, name) && op.c.issuerPem == ""
  }

  /** The chain is as before, and no other file went missing. */
  predicate SameChain(d: Dir, e: Dir) {
    && e.chain == d.chain
    && (d.cert.Some? ==> e.cert.Some?) && (d.key.Some? ==> e.key.Some?) && (d.meta.Some? ==> e.meta.Some?)
  }

  lemma {:induction false} ChainKept(t: Tree, ops: seq<Op>, name: string)
    requires forall k :: 0 <= k < |ops| ==> KeepsChain(ops[k], name)
    ensures SameChain(At(t, name), At(Run(t, ops), name))
  {
    if ops != [] {
      var last := ops[|ops| - 1];
      ChainKept(t, ops[..|ops| - 1], name);
      assert KeepsChain(last, name);
    }
  }

  /** The loaded chain is that of the last save that carried one, if nothing removed it since. */
  lemma ChainOfLastSaveWithOne(before: seq<Op>, op: Op, after: seq<Op>, domain: string)
    requires ValidDomain(domain) && Saves(op, Encode(domain)) && op.c.issuerPem != ""
    requires forall k :: 0 <= k < |after| ==> KeepsChain(after[k], Encode(domain))
    ensures Load(Run(EMPTY_TREE, before + [op] + after), domain).Ok?
    ensures Load(Run(EMPTY_TREE, before + [op] + after), domain).value.issuerPem == op.c.issuerPem
  {
    var t, end := Run(EMPTY_TREE, before), Run(EMPTY_TREE, before + [op] + after);
    assert end == Run(Apply(t, op), after) by {
      RunThrough(before, op, after);
    }
    ChainAfterSave(t, op, after, Encode(domain));
    LoadedChain(end, domain);
  }

  lemma LoadedChain(t: Tree, domain: string)
    requires ValidDomain(domain)
    ensures var d := At(t, Encode(domain));
      d.cert.Some? && d.key.Some? && d.meta.Some? ==>
        Load(t, domain).Ok? && Load(t, domain).value.issuerPem == if d.chain.Some? then d.chain.value else ""
  {
  }

  lemma ChainAfterSave(t: Tree, op: Op, after: seq<Op>, name: string)
    requires Saves(op, name) && forall k :: 0 <= k < |after| ==> KeepsChain(after[k], name)
    ensures SameChain(Written(At(t, name), op.c), At(Run(Apply(t, op), after), name))
  {
    AtApplySave(t, op, name);
    ChainKept(Apply(t, op), after, name);
  }

  /** With no such save since the directory was wiped, or ever, a loaded chain is empty. */
  lemma NoChainWithoutSave(before: seq<Op>, wipe: Op, after: seq<Op>, domain: string)
    requires Wipes(wipe, Encode(domain))
    requires forall k :: 0 <= k < |after| ==> KeepsChain(after[k], Encode(domain))
    ensures var r := Load(Run(EMPTY_TREE, before + [wipe] + after), domain); r.Ok? ==> r.value.issuerPem == ""
    ensures var r := Load(Run(EMPTY_TREE, after), domain); r.Ok? ==> r.value.issuerPem == ""
  {
    var name, t := Encode(domain), Run(EMPTY_TREE, before);
    RunThrough(before, wipe, after);
    ChainKept(Apply(t, wipe), after, name);
    ChainKept(EMPTY_TREE, after, name);
  }

  /** A directory wiped, or never saved to, does not load. */
  lemma WipedDoesNotLoad(before: seq<Op>, wipe: Op, after: seq<Op>, domain: string)
    requires Wipes(wipe, Encode(domain))
    requires forall k :: 0 <= k < |after| ==> !Touches(after[k], Encode(domain))
    ensures Load(Run(EMPTY_TREE, before + [wipe] + after), domain).Err?
    ensures Load(Run(EMPTY_TREE, after), domain).Err?
  {
    var name, t := Encode(domain), Run(EMPTY_TREE, before);
    RunThrough(before, wipe, after);
    RunFrame(Apply(t, wipe), after, name);
    RunFrame(EMPTY_TREE, after, name);
  }

  /** Domains that survive the round trip never interfere: each loads as if it were alone. */
  lemma DistinctDomainsDoNotInterfere(t: Tree, ops: seq<Op>, domain: string)
    requires '_' !in domain && !Contains(domain, WILDCARD)
    requires forall k :: 0 <= k < |ops| ==>
      match ops[k]
      case Save(c) => c.domains != [] ==>
          c.domains[0] != domain && '_' !in c.domains[0] && !Contains(c.domains[0], WILDCARD)
      case Delete(d) => d != domain && d != "" && '_' !in d && !Contains(d, WILDCARD)
      case TornSave(d, _) => d != domain && '_' !in d && !Contains(d, WILDCARD)
      case NoOp => true
    ensures Load(Run(t, ops), domain) == Load(t, domain)
  {
    forall k | 0 <= k < |ops|
      ensures !Touches(ops[k], Encode(domain))
    {
      EncodeEmptyIff(if ops[k].Delete? then ops[k].domain else "");
      if Touches(ops[k], Encode(domain)) {
        EncodeInjective(domain, if ops[k].Save? then ops[k].c.domains[0] else ops[k].domain);
      }
    }
    RunFrame(t, ops, Encode(domain));
  }

  lemma EncodeEmptyIff(domain: string)
    ensures Encode(domain) == "" <==> domain == ""
  {
    if domain != "" {
      ReplaceCharStep(domain, '.', "_");
      ReplaceCharStep(Under(domain), '*', WILDCARD);
    }
  }

  // ---------------------------------------------------------------- listing

  /** The directory names that a scan of `t` sees, in any order. */
  ghost predicate Scans(t: Tree, names: seq<string>) {
    && (forall n :: n in names <==> n in t.dirs)
    && (forall i, j :: 0 <= i < j < |names| ==> names[i] != names[j])
  }

  /** The tree at the k-th load: the operations of the gaps up to it have run. */
  function TreeAt(t: Tree, gaps: seq<seq<Op>>, k: nat): Tree
    requires k < |gaps|
  {
    if k == 0 then Run(t, gaps[0]) else Run(TreeAt(t, gaps, k - 1), gaps[k])
  }

  function Listed(domains: seq<string>, views: seq<Tree>): seq<Certificate>
    requires |domains| == |views|
  {
    if domains == [] then []
    else
      var n := |domains| - 1;
      var r := Load(views[n], domains[n]);
      Listed(domains[..n], views[..n]) + if r.Ok? then [r.value] else []
  }

  lemma {:induction false} TreeAtFrame(t: Tree, gaps: seq<seq<Op>>, k: nat, name: string)
    requires k < |gaps|
    requires forall g, i :: 0 <= g < |gaps| && 0 <= i < |gaps[g]| ==> !Touches(gaps[g][i], name)
    ensures At(TreeAt(t, gaps, k), name) == At(t, name)
  {
    if k == 0 {
      RunFrame(t, gaps[0], name);
    } else {
      TreeAtFrame(t, gaps, k - 1, name);
      RunFrame(TreeAt(t, gaps, k - 1), gaps[k], name);
    }
  }

  lemma {:induction false} ListedHolds(domains: seq<string>, views: seq<Tree>, k: nat)
    requires |domains| == |views| && k < |domains| && Load(views[k], domains[k]).Ok?
    ensures Load(views[k], domains[k]).value in Listed(domains, views)
  {
    var n := |domains| - 1;
    if k < n {
      ListedHolds(domains[..n], views[..n], k);
    }
  }

  /** A listing invents nothing: each certificate it returns was on disk when it was loaded. */
  lemma {:induction false} ListedSound(domains: seq<string>, views: seq<Tree>, c: Certificate)
    requires |domains| == |views| && c in Listed(domains, views)
    ensures exists k :: 0 <= k < |domains| && Load(views[k], domains[k]) == Ok(c)
  {
    var n := |domains| - 1;
    if Load(views[n], domains[n]) != Ok(c) {
      ListedSound(domains[..n], views[..n], c);
      var k :| 0 <= k < |domains[..n]| && Load(views[..n][k], domains[..n][k]) == Ok(c);
      assert Load(views[k], domains[k]) == Ok(c);
    }
  }

  /**
   For every interleaving of saves and deletes with a listing, a certificate that was there at
   the scan and untouched since is loaded, exactly when its domain holds no two neighbouring
   separators; otherwise its slot is a validation error.
   */
  lemma ListingSlot(t: Tree, names: seq<string>, gaps: seq<seq<Op>>, domain: string, k: nat)
    requires |gaps| == |names| && k < |names| && names[k] == Encode(domain)
    requires Load(t, domain).Ok?
    requires forall g, i :: 0 <= g < |gaps| && 0 <= i < |gaps[g]| ==> !Touches(gaps[g][i], Encode(domain))
    ensures Load(TreeAt(t, gaps, k), Decode(names[k])) ==
            if AdjacentSeparators(domain) then Err(InvalidDomain) else Load(t, domain)
  {
    var name := Encode(domain);
    TreeAtFrame(t, gaps, k, name);
    ListedIff(domain);
    EncodeClean(domain);
    Reencode(name);
  }

  /** So a listing misses no certificate that stays in place and whose domain reads back. */
  lemma ListingMissesNothing(t: Tree, names: seq<string>, gaps: seq<seq<Op>>, domain: string,
                             domains: seq<string>, views: seq<Tree>)
    requires Scans(t, names) && |gaps| == |names| == |domains| == |views|
    requires forall k :: 0 <= k < |names| ==> domains[k] == Decode(names[k]) && views[k] == TreeAt(t, gaps, k)
    requires domain != "" && !AdjacentSeparators(domain) && Load(t, domain).Ok?
    requires forall g, i :: 0 <= g < |gaps| && 0 <= i < |gaps[g]| ==> !Touches(gaps[g][i], Encode(domain))
    ensures Load(t, domain).value in Listed(domains, views)
  {
    var name := Encode(domain);
    EncodeEmptyIff(domain);
    assert name in t.dirs;
    var k :| 0 <= k < |names| && names[k] == name;
    ListingSlot(t, names, gaps, domain, k);
    ListedHolds(domains, views, k);
  }

  /** Each directory of the store is loaded at most once by a listing. */
  lemma ListingLoadsOnce(t: Tree, names: seq<string>, i: nat, j: nat)
    requires Scans(t, names) && i < j < |names|
    requires forall n :: n in t.dirs ==> '.' !in n && '*' !in n
    ensures Encode(Decode(names[i])) != Encode(Decode(names[j]))
  {
    assert names[i] in t.dirs && names[j] in t.dirs;
    Reencode(names[i]);
    Reencode(names[j]);
  }

  /** Every directory of every run is the encoding of a domain, so those hypotheses hold. */
  lemma {:induction false} DirectoriesAreEncodings(ops: seq<Op>, name: string)
    requires name in Run(EMPTY_TREE, ops).dirs
    ensures name != "" && '.' !in name && '*' !in name
    ensures '/' !in name && '\\' !in name && '\0' !in name
  {
    var last := ops[|ops| - 1];
    var before := Run(EMPTY_TREE, ops[..|ops| - 1]);
    if name in before.dirs {
      DirectoriesAreEncodings(ops[..|ops| - 1], name);
    } else {
      EncodeClean(if last.Save? then last.c.domains[0] else last.domain);
      EncodesPathElement(if last.Save? then last.c.domains[0] else last.domain);
    }
  }

  // ---------------------------------------------------------------- the store

  class FileStorage {
    var root: Dir
    var dirs: map<string, Dir>

    function View(): Tree
      reads this
    {
      Tree(root, dirs)
    }

    constructor ()
      ensures View() == EMPTY_TREE
    {
      root, dirs := EMPTY_DIR, map[];
    }

    /** Replaces the files of one directory; the other directories keep theirs. */
    method WriteDir(name: string, d: Dir)
      modifies this
      ensures View() == Put(old(View()), name, d)
    {
      if name == "" {
        root := d;
      } else {
        dirs := dirs[name := d];
      }
    }

    /** A later write to a directory that this save already wrote to. */
    method RewriteDir(ghost before: Tree, name: string, d: Dir)
      requires exists e :: View() == Put(before, name, e)
      modifies this
      ensures View() == Put(before, name, d)
    {
      WriteDir(name, d);
    }

    /** A save that meets a fault stops there, and leaves what it had written by then. */
    method SaveCertificate(c: Certificate, fault: Option<Fault>) returns (err: Option<StoreError>)
      modifies this
      ensures View() == Apply(old(View()), Outcome(old(View()), c, fault))
      ensures err == if c.domains == [] then Some(NoDomains)
                     else if !ValidDomain(c.domains[0]) then Some(InvalidDomain)
                     else if Met(c, fault) then Some(WriteFailed) else None
      ensures err == Some(InvalidDomain) <==>
        && c.domains != []
        && var d := c.domains[0];
          exists i :: 0 <= i < |d| && (d[i] in "/\\\0" || (d[i] == '.' && i + 1 < |d| && d[i + 1] == '.'))
    {
      if c.domains != [] {
        ValidDomainIff(c.domains[0]);
      }
      if c.domains == [] {
        return Some(NoDomains);
      }
      if !ValidDomain(c.domains[0]) {
        return Some(InvalidDomain);
      }
      var name := Encode(c.domains[0]);
      var d := At(View(), name);
      if fault == Some(DirFault) {
        return Some(WriteFailed);
      }
      WriteDir(name, d);
      if fault.Some? && fault.value.CertFault? {
        RewriteDir(old(View()), name, d.(cert := fault.value.left));
        return Some(WriteFailed);
      }
      d := d.(cert := Some(c.certPem));
      RewriteDir(old(View()), name, d);
      if fault.Some? && fault.value.KeyFault? {
        RewriteDir(old(View()), name, d.(key := fault.value.left));
        return Some(WriteFailed);
      }
      d := d.(key := Some(c.keyPem));
      RewriteDir(old(View()), name, d);
      if c.issuerPem != "" {
        if fault.Some? && fault.value.ChainFault? {
          RewriteDir(old(View()), name, d.(chain := fault.value.left));
          return Some(WriteFailed);
        }
        d := d.(chain := Some(c.issuerPem));
        RewriteDir(old(View()), name, d);
      }
      if fault.Some? && fault.value.MetaFault? {
        RewriteDir(old(View()), name, d.(meta := fault.value.leftMeta));
        return Some(WriteFailed);
      }
      d := d.(meta := Some(MetaOf(c)));
      RewriteDir(old(View()), name, d);
      return None;
    }

    method LoadCertificate(domain: string) returns (r: Result<Certificate, StoreError>)
      ensures r == Load(View(), domain)
      ensures r == Err(InvalidDomain) <==>
        (exists i :: 0 <= i < |domain| && (domain[i] in "/\\\0" || (domain[i] == '.' && i + 1 < |domain| && domain[i + 1] == '.')))
    {
      ValidDomainIff(domain);
      if !ValidDomain(domain) {
        return Err(InvalidDomain);
      }
      var d := At(View(), Encode(domain));
      if d.cert.None? {
        return Err(Missing);
      }
      if d.key.None? {
        return Err(Missing);
      }
      var chain := if d.chain.Some? then d.chain.value else "";
      if d.meta.None? {
        return Err(Missing);
      }
      var m := d.meta.value;
      return Ok(Certificate(m.domains, d.cert.value, d.key.value, chain,
                            ReadTime(m.notBefore), ReadTime(m.notAfter), m.serial, m.issuer));
    }

    method DeleteCertificate(domain: string) returns (err: Option<StoreError>)
      modifies this
      ensures View() == Apply(old(View()), Delete(domain))
      ensures err == if ValidDomain(domain) then None else Some(InvalidDomain)
      ensures err.Some? <==>
        (exists i :: 0 <= i < |domain| && (domain[i] in "/\\\0" || (domain[i] == '.' && i + 1 < |domain| && domain[i + 1] == '.')))
    {
      ValidDomainIff(domain);
      if !ValidDomain(domain) {
        return Some(InvalidDomain);
      }
      var name := Encode(domain);
      if name == "" {
        root, dirs := EMPTY_DIR, map[];
      } else {
        dirs := dirs - {name};
      }
      return None;
    }
  }

  /** Phase one of a listing: the scanned names, decoded. */
  method CollectDomains(names: seq<string>) returns (domains: seq<string>)
    ensures domains == seq(|names|, i requires 0 <= i < |names| => Decode(names[i]))
  {
    domains := [];
    for i := 0 to |names|
      invariant |domains| == i
      invariant forall k :: 0 <= k < i ==> domains[k] == Decode(names[k])
    {
      var domain := ReplaceAll(names[i], "_", ".");
      domain := ReplaceAll(domain, "wildcard", "*");
      domains := domains + [domain];
    }
  }

  /** Phase two: one load per domain, each against the tree of its own moment; failures are skipped. */
  method LoadListed(domains: seq<string>, views: seq<Tree>) returns (certs: seq<Certificate>)
    requires |domains| == |views|
    ensures certs == Listed(domains, views)
  {
    certs := [];
    for i := 0 to |domains|
      invariant certs == Listed(domains[..i], views[..i])
    {
      var r := Load(views[i], domains[i]);
      assert domains[..i + 1][..i] == domains[..i] && views[..i + 1][..i] == views[..i];
      if r.Err? {
        continue;
      }
      certs := certs + [r.value];
    }
    assert domains[..|domains|] == domains && views[..|views|] == views;
  }
}
