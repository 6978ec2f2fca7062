/** Listener conflicts of a Gateway: one pass with a table of protocols and one of hostnames per port. */
module ListenerConflicts {
  import opened Wrappers

  datatype Listener = Listener(name: string, port: int, protocol: string, hostname: Option<string>)

  datatype Status = ListenerAccepted | ListenerConflicted | ListenerUnsupported

  predicate Supported(protocol: string) {
    protocol in {"HTTP", "HTTPS", "TLS", "TCP"}
  }

  /** A listener without a hostname takes every host of its port. */
  function Host(l: Listener): string {
    if l.hostname.None? then "*" else l.hostname.value
  }

  /** The port is taken, and by other protocols only. */
  ghost predicate ProtocolConflict(ls: seq<Listener>, i: nat)
    requires i < |ls|
  {
    && (exists j :: 0 <= j < i && ls[j].port == ls[i].port)
    && (forall j :: 0 <= j < i && ls[j].port == ls[i].port ==> ls[j].protocol != ls[i].protocol)
  }

  ghost predicate HostConflict(ls: seq<Listener>, i: nat)
    requires i < |ls|
  {
    exists j :: 0 <= j < i && ls[j].port == ls[i].port && Host(ls[j]) == Host(ls[i])
  }

  ghost predicate Conflict(ls: seq<Listener>, i: nat)
    requires i < |ls|
  {
    ProtocolConflict(ls, i) || HostConflict(ls, i)
  }

  ghost function StatusOf(ls: seq<Listener>, i: nat): Status
    requires i < |ls|
  {
    if Conflict(ls, i) then ListenerConflicted
    else if Supported(ls[i].protocol) then ListenerAccepted else ListenerUnsupported
  }

  /** A hostname conflict overwrites the message of a protocol conflict. */
  ghost function MessageOf(ls: seq<Listener>, i: nat): string
    requires i < |ls|
  {
    if HostConflict(ls, i) then "hostname conflict on port" else "protocol conflict on port"
  }

  /** Errors are kept by listener name, so the last conflict of a name is the one reported. */
  ghost predicate LastConflictOf(ls: seq<Listener>, i: int, n: nat)
    requires n <= |ls|
  {
    && 0 <= i < n && Conflict(ls, i)
    && forall j :: i < j < n && Conflict(ls, j) ==> ls[j].name != ls[i].name
  }

  /** The error table after `n` listeners: exactly the names in conflict, each with its last message. */
  ghost predicate Reports(errors: map<string, string>, ls: seq<Listener>, n: nat)
    requires n <= |ls|
  {
    && (forall name :: name in errors <==> exists i :: 0 <= i < n && ls[i].name == name && Conflict(ls, i))
    && (forall i :: LastConflictOf(ls, i, n) ==> ls[i].name in errors && errors[ls[i].name] == MessageOf(ls, i))
  }

  lemma ReportsNext(errors: map<string, string>, ls: seq<Listener>, i: nat)
    requires i < |ls| && Reports(errors, ls, i)
    ensures Reports(if Conflict(ls, i) then errors[ls[i].name := MessageOf(ls, i)] else errors, ls, i + 1)
  {
    var next := if Conflict(ls, i) then errors[ls[i].name := MessageOf(ls, i)] else errors;
    forall name
      ensures name in next <==> exists j :: 0 <= j < i + 1 && ls[j].name == name && Conflict(ls, j)
    {
      if name in errors {
        var j :| 0 <= j < i && ls[j].name == name && Conflict(ls, j);
      }
    }
    forall j | LastConflictOf(ls, j, i + 1)
      ensures ls[j].name in next && next[ls[j].name] == MessageOf(ls, j)
    {
      MessageKept(errors, ls, i, j);
    }
  }

  lemma MessageKept(errors: map<string, string>, ls: seq<Listener>, i: nat, j: nat)
    requires i < |ls| && Reports(errors, ls, i) && LastConflictOf(ls, j, i + 1)
    ensures j == i || (ls[j].name in errors && errors[ls[j].name] == MessageOf(ls, j))
    ensures j < i && Conflict(ls, i) ==> ls[j].name != ls[i].name
  {
    if j < i {
      assert LastConflictOf(ls, j, i);
    }
  }

  function Protocol(l: Listener): string { l.protocol }

  /** The values that a table holds for the ports of the first `i` listeners. */
  ghost predicate Tabulates(table: map<int, set<string>>, ls: seq<Listener>, i: nat, value: Listener -> string)
    requires i <= |ls|
  {
    && (forall p :: p in table <==> exists j :: 0 <= j < i && ls[j].port == p)
    && (forall p, v :: p in table ==> (v in table[p] <==> exists j :: 0 <= j < i && ls[j].port == p && value(ls[j]) == v))
  }

  /** The values of the listeners before `i` on its port. */
  ghost predicate Seen(seen: set<string>, ls: seq<Listener>, i: nat, value: Listener -> string)
    requires i < |ls|
  {
    forall v :: v in seen <==> exists j :: 0 <= j < i && ls[j].port == ls[i].port && value(ls[j]) == v
  }

  lemma TabulatesNext(table: map<int, set<string>>, ls: seq<Listener>, i: nat, value: Listener -> string)
    requires i < |ls| && Tabulates(table, ls, i, value)
    ensures var p := ls[i].port; var seen := if p in table then table[p] else {};
      && Tabulates(table[p := seen + {value(ls[i])}], ls, i + 1, value)
      && Seen(seen, ls, i, value)
  {
    var p := ls[i].port;
    if p !in table {
      assert forall j :: 0 <= j < i ==> ls[j].port != p;
    }
  }

  method ValidateListeners(ls: seq<Listener>) returns (statuses: seq<Status>, errors: map<string, string>)
    ensures |statuses| == |ls| && forall i :: 0 <= i < |ls| ==> statuses[i] == StatusOf(ls, i)
    ensures Reports(errors, ls, |ls|)
    ensures forall i :: 0 <= i < |ls| ==>
      && (statuses[i] == ListenerConflicted <==> Conflict(ls, i))
      && (statuses[i] == ListenerAccepted <==> !Conflict(ls, i) && ls[i].protocol in {"HTTP", "HTTPS", "TLS", "TCP"})
  {
    statuses, errors := [], map[];
    var portProtocols: map<int, set<string>> := map[];
    var portHostnames: map<int, set<string>> := map[];
    for i := 0 to |ls|
      invariant |statuses| == i && forall j :: 0 <= j < i ==> statuses[j] == StatusOf(ls, j)
      invariant Reports(errors, ls, i)
      invariant Tabulates(portProtocols, ls, i, Protocol) && Tabulates(portHostnames, ls, i, Host)
    {
      var hasConflict, message;
      hasConflict, message, portProtocols, portHostnames := EnterListener(ls, i, portProtocols, portHostnames);
      var status;
      status, errors := RecordListener(ls, i, hasConflict, message, errors);
      statuses := statuses + [status];
    }
  }

  method RecordListener(ls: seq<Listener>, i: nat, hasConflict: bool, message: string, was: map<string, string>)
    returns (status: Status, errors: map<string, string>)
    requires i < |ls| && Reports(was, ls, i) && (hasConflict <==> Conflict(ls, i)) && (hasConflict ==> message == MessageOf(ls, i))
    ensures status == StatusOf(ls, i) && Reports(errors, ls, i + 1)
  {
    ReportsNext(was, ls, i);
    errors := if hasConflict then was[ls[i].name := message] else was;
    status := if Supported(ls[i].protocol) && !hasConflict then ListenerAccepted
              else if hasConflict then ListenerConflicted else ListenerUnsupported;
  }

  /** Checks a listener against the tables of those before it, and enters it into them. */
  method EnterListener(ls: seq<Listener>, i: nat, protocolsWas: map<int, set<string>>, hostnamesWas: map<int, set<string>>)
    returns (hasConflict: bool, message: string, portProtocols: map<int, set<string>>, portHostnames: map<int, set<string>>)
    requires i < |ls| && Tabulates(protocolsWas, ls, i, Protocol) && Tabulates(hostnamesWas, ls, i, Host)
    ensures Tabulates(portProtocols, ls, i + 1, Protocol) && Tabulates(portHostnames, ls, i + 1, Host)
    ensures hasConflict <==> Conflict(ls, i)
    ensures hasConflict ==> message == MessageOf(ls, i)
  {
    var l := ls[i];
    TabulatesNext(protocolsWas, ls, i, Protocol);
    TabulatesNext(hostnamesWas, ls, i, Host);
    var protocols := if l.port in protocolsWas then protocolsWas[l.port] else {};
    var hostnames := if l.port in hostnamesWas then hostnamesWas[l.port] else {};
    hasConflict, message := CheckListener(ls, i, protocols, hostnames);
    portProtocols := protocolsWas[l.port := protocols + {l.protocol}];
    portHostnames := hostnamesWas[l.port := hostnames + {Host(l)}];
  }

  method CheckListener(ls: seq<Listener>, i: nat, protocols: set<string>, hostnames: set<string>)
    returns (hasConflict: bool, message: string)
    requires i < |ls|
    requires Seen(protocols, ls, i, Protocol) && Seen(hostnames, ls, i, Host)
    ensures hasConflict <==> Conflict(ls, i)
    ensures hasConflict ==> message == MessageOf(ls, i)
  {
    hasConflict, message := false, "";
    if |protocols| > 0 && ls[i].protocol !in protocols {
      hasConflict, message := true, "protocol conflict on port";
    }
    assert protocols == {} <==> forall j :: 0 <= j < i && ls[j].port == ls[i].port ==> ls[j].protocol !in protocols;
    if Host(ls[i]) in hostnames {
      hasConflict, message := true, "hostname conflict on port";
    }
  }

  /** The same hostname, where none is the same as a star. */
  predicate SameHost(a: Listener, b: Listener) {
    || a.hostname == b.hostname
    || (a.hostname == None && b.hostname == Some("*"))
    || (a.hostname == Some("*") && b.hostname == None)
  }

  /** A conflict written out: an earlier listener of the port has the same host, or all of them other protocols. */
  lemma ConflictIff(ls: seq<Listener>, i: nat)
    requires i < |ls|
    ensures Conflict(ls, i) <==>
      || (exists j :: 0 <= j < i && ls[j].port == ls[i].port && SameHost(ls[j], ls[i]))
      || ((exists j :: 0 <= j < i && ls[j].port == ls[i].port)
          && forall j :: 0 <= j < i && ls[j].port == ls[i].port ==> ls[j].protocol != ls[i].protocol)
    ensures MessageOf(ls, i) == if exists j :: 0 <= j < i && ls[j].port == ls[i].port && SameHost(ls[j], ls[i])
                                then "hostname conflict on port" else "protocol conflict on port"
  {
  }

  // ---------------------------------------------------------------- exactness

  /** No two listeners on one port differ in protocol or share a hostname. */
  ghost predicate PairwiseCompatible(ls: seq<Listener>) {
    forall i, j :: 0 <= i < j < |ls| && ls[i].port == ls[j].port ==>
      ls[i].protocol == ls[j].protocol && Host(ls[i]) != Host(ls[j])
  }

  /** The pass reports no error, and the Gateway is Programmed, exactly when all listeners are compatible. */
  lemma NoConflictIff(ls: seq<Listener>)
    ensures (forall i :: 0 <= i < |ls| ==> !Conflict(ls, i)) <==> PairwiseCompatible(ls)
  {
    if forall i :: 0 <= i < |ls| ==> !Conflict(ls, i) {
      forall i, j | 0 <= i < j < |ls| && ls[i].port == ls[j].port
        ensures ls[i].protocol == ls[j].protocol && Host(ls[i]) != Host(ls[j])
      {
        SameProtocol(ls, i, j);
        assert !Conflict(ls, j);
      }
    }
    if PairwiseCompatible(ls) {
      forall i | 0 <= i < |ls|
        ensures !Conflict(ls, i)
      {
      }
    }
  }

  lemma {:induction false} SameProtocol(ls: seq<Listener>, i: nat, j: nat)
    requires i < j < |ls| && ls[i].port == ls[j].port
    requires forall k :: 0 <= k < |ls| ==> !Conflict(ls, k)
    ensures ls[i].protocol == ls[j].protocol
    decreases j
  {
    assert !Conflict(ls, j);
    var k :| 0 <= k < j && ls[k].port == ls[j].port && ls[k].protocol == ls[j].protocol;
    if k < i {
      SameProtocol(ls, k, i);
    } else if i < k {
      SameProtocol(ls, i, k);
    }
  }

  /** Two accepted listeners never share both port and hostname. */
  lemma AcceptedAreApart(ls: seq<Listener>, i: nat, j: nat)
    requires i < j < |ls| && StatusOf(ls, i).ListenerAccepted? && StatusOf(ls, j).ListenerAccepted?
    ensures !(ls[i].port == ls[j].port && Host(ls[i]) == Host(ls[j]))
  {
    assert !HostConflict(ls, j);
  }

  lemma NoErrorsIff(errors: map<string, string>, ls: seq<Listener>)
    requires Reports(errors, ls, |ls|)
    ensures |errors| == 0 <==> forall i :: 0 <= i < |ls| ==> !Conflict(ls, i)
  {
    if |errors| > 0 {
      var name :| name in errors;
    }
    forall i | 0 <= i < |ls| && Conflict(ls, i)
      ensures ls[i].name in errors
    {
    }
  }

  method ReportProgrammed(ls: seq<Listener>) returns (programmed: bool)
    ensures programmed <==> PairwiseCompatible(ls)
  {
    var statuses, errors := ValidateListeners(ls);
    programmed := |errors| == 0;
    NoConflictIff(ls);
    NoErrorsIff(errors, ls);
  }
}
