/**
 * The worker-ID allocator of server/zkServer/zkServer.go, run against an
 * abstract coordination namespace.
 *
 * The namespace is a map from node path to node data. Whether each call into
 * it fails, whether the connection pool yields a connection, the random draws
 * and the wall-clock second stored in a claimed node are all inputs.
 * `base.ErrorF` ends the process, so every branch that calls it ends in the
 * `Exit` outcome instead of the `return` that follows it in the source.
 */
module ZkServer {
  import opened Bits
  import opened Const
  import opened ErrCode
  import opened Utils

  type Nodes = map<string, seq<Byte>>

  /** `p` names a direct child of `base`: `base + "/" + name` with a non-empty name free of '/'. */
  predicate IsChild(base: string, p: string) {
    |p| > |base| + 1 && p[..|base| + 1] == base + "/" && forall i :: |base| + 1 <= i < |p| ==> p[i] != '/'
  }

  function ChildPath(base: string, name: string): string {
    base + "/" + name
  }

  /** The names that `Children(base)` lists. */
  function ChildNames(nodes: Nodes, base: string): set<string> {
    set p | p in nodes && IsChild(base, p) :: p[|base| + 1..]
  }

  lemma ChildPathOf(nodes: Nodes, base: string, name: string)
    requires name in ChildNames(nodes, base)
    ensures ChildPath(base, name) in nodes && IsChild(base, ChildPath(base, name))
  {
    var p :| p in nodes && IsChild(base, p) && p[|base| + 1..] == name;
    assert p == p[..|base| + 1] + p[|base| + 1..];
  }

  /** Different names give different child paths. */
  lemma ChildPathInjective(base: string, a: string, b: string)
    ensures ChildPath(base, a) == ChildPath(base, b) ==> a == b
  {
    if ChildPath(base, a) == ChildPath(base, b) {
      assert a == ChildPath(base, a)[|base| + 1..];
      assert b == ChildPath(base, b)[|base| + 1..];
    }
  }

  predicate Distinct(names: seq<string>) {
    forall i, j :: 0 <= i < j < |names| ==> names[i] != names[j]
  }

  /** The coordination namespace as the client connection sees it. */
  class Namespace {
    var nodes: Nodes

    constructor(init: Nodes)
      ensures nodes == init
    {
      nodes := init;
    }

    /** `Exists(path)`; `fails` says whether the call returns an error. */
    method Exists(path: string, fails: bool) returns (exist: bool, ok: bool)
      ensures ok == !fails
      ensures exist == (ok && path in nodes)
    {
      ok := !fails;
      exist := ok && path in nodes;
    }

    /** `Create(path, data, 0, acl)`: a persistent node; it fails when the path is taken. */
    method Create(path: string, data: seq<Byte>, fails: bool) returns (ok: bool)
      modifies this
      ensures ok == (!fails && path !in old(nodes))
      ensures nodes == if ok then old(nodes)[path := data] else old(nodes)
    {
      ok := !fails && path !in nodes;
      if ok {
        nodes := nodes[path := data];
      }
    }

    /** `Delete(path, -1)`: any version; it fails when the path is absent. */
    method Delete(path: string, fails: bool) returns (ok: bool)
      modifies this
      ensures ok == (!fails && path in old(nodes))
      ensures nodes == if ok then old(nodes) - {path} else old(nodes)
    {
      ok := !fails && path in nodes;
      if ok {
        nodes := nodes - {path};
      }
    }

    /** `Children(base)`: the names of the children of `base`, each once, in no particular order. */
    method Children(base: string, fails: bool) returns (names: seq<string>, ok: bool)
      ensures ok == (!fails && base in nodes)
      ensures ok ==> Distinct(names) && forall n :: n in names <==> n in ChildNames(nodes, base)
      ensures !ok ==> names == []
    {
      names := [];
      ok := !fails && base in nodes;
      if !ok {
        return;
      }
      var all := ChildNames(nodes, base);
      var rest := all;
      while rest != {}
        invariant rest <= all
        invariant Distinct(names)
        invariant forall n :: n in names <==> n in all && n !in rest
        decreases |rest|
      {
        var n :| n in rest;
        names := names + [n];
        rest := rest - {n};
      }
    }
  }

  // ----- Claiming a worker ID -----

  /** Both claim loops give up after `MaxWorkerID / 2` probes. */
  const MaxAttempts: nat := MaxWorkerID / 2

  /** What one iteration of a claim loop is given: the random draw and whether each call fails. */
  datatype Probe = Probe(draw: int, existsFails: bool, createFails: bool)

  predicate ValidProbes(probes: seq<Probe>) {
    |probes| >= MaxAttempts && forall i :: 0 <= i < |probes| ==> 0 <= probes[i].draw < MaxWorkerID
  }

  /** The candidate ID of a probe: `RandomNum(0, MaxWorkerID)`, which never panics on that range. */
  function Candidate(p: Probe): (id: int)
    requires 0 <= p.draw < MaxWorkerID
    ensures RandomNum(0, MaxWorkerID, p.draw) == Value(id)
    ensures 0 <= id < MaxWorkerID
  {
    RandomNum(0, MaxWorkerID, p.draw).n
  }

  /** The node a candidate ID is claimed under. */
  function WorkerPath(id: nat): string {
    WorkIdPathPrefix + Itoa(id)
  }

  /** Different IDs are claimed under different paths. */
  lemma WorkerPathInjective(a: nat, b: nat)
    ensures WorkerPath(a) == WorkerPath(b) ==> a == b
  {
    if WorkerPath(a) == WorkerPath(b) {
      assert Itoa(a) == WorkerPath(a)[|WorkIdPathPrefix|..];
      assert Itoa(b) == WorkerPath(b)[|WorkIdPathPrefix|..];
      ItoaInjective(a, b);
    }
  }

  /** How a claim loop ends: a claimed ID, a logged fatal error, or all attempts used. */
  datatype LoopEnd = Won(id: int) | Died | Exhausted

  /** The end of a claim loop, the namespace it leaves, and the number of probes made. */
  datatype Claim = Claim(end: LoopEnd, nodes: Nodes, probes: nat)

  /**
   * The claim loop from attempt `i` on: probe the candidate's path, skip it
   * when it exists, otherwise create it holding `data` and stop.
   */
  function ClaimFrom(nodes: Nodes, probes: seq<Probe>, data: seq<Byte>, i: nat): (c: Claim)
    requires ValidProbes(probes) && i <= MaxAttempts
    ensures i <= c.probes <= MaxAttempts
    ensures c.end.Exhausted? <==> c.probes == MaxAttempts && c.nodes == nodes && forall k :: i <= k < MaxAttempts ==>
      !probes[k].existsFails && WorkerPath(Candidate(probes[k])) in nodes
    ensures c.end.Won? ==>
      && i < c.probes && 0 <= c.end.id < MaxWorkerID && c.end.id == Candidate(probes[c.probes - 1])
      && WorkerPath(c.end.id) !in nodes && c.nodes == nodes[WorkerPath(c.end.id) := data]
    ensures !c.end.Won? ==> c.nodes == nodes
    ensures c.end.Won? <==>
      && i < c.probes && !probes[c.probes - 1].existsFails
      && WorkerPath(Candidate(probes[c.probes - 1])) !in nodes && !probes[c.probes - 1].createFails
    ensures c.end.Died? <==>
      && i < c.probes
      && (|| probes[c.probes - 1].existsFails
          || (WorkerPath(Candidate(probes[c.probes - 1])) !in nodes && probes[c.probes - 1].createFails))
    ensures forall k :: i <= k < c.probes - 1 ==> !probes[k].existsFails && WorkerPath(Candidate(probes[k])) in nodes
    decreases MaxAttempts - i
  {
    if i == MaxAttempts then Claim(Exhausted, nodes, i)
    else
      var p := probes[i];
      var path := WorkerPath(Candidate(p));
      if p.existsFails then Claim(Died, nodes, i + 1)
      else if path in nodes then ClaimFrom(nodes, probes, data, i + 1)
      else if p.createFails then Claim(Died, nodes, i + 1)
      else Claim(Won(Candidate(p)), nodes[path := data], i + 1)
  }

  /**
   * The probe loop shared by GetWorkerId and GetWorkerIdWithPool (lines
   * 38-59 and 80-101), with `data` the encoded timestamp taken before it.
   */
  method ClaimLoop(ns: Namespace, probes: seq<Probe>, data: seq<Byte>) returns (end: LoopEnd, tried: nat)
    requires ValidProbes(probes)
    modifies ns
    ensures Claim(end, ns.nodes, tried) == ClaimFrom(old(ns.nodes), probes, data, 0)
  {
    var i := 0;
    while i < MaxAttempts
      invariant 0 <= i <= MaxAttempts
      invariant ns.nodes == old(ns.nodes)
      invariant ClaimFrom(ns.nodes, probes, data, i) == ClaimFrom(old(ns.nodes), probes, data, 0)
      decreases MaxAttempts - i
    {
      var workId := Candidate(probes[i]);
      var path := WorkerPath(workId);
      var exist, ok := ns.Exists(path, probes[i].existsFails);
      if !ok {
        return Died, i + 1;
      }
      if exist {
        i := i + 1;
        continue;
      }
      ok := ns.Create(path, data, probes[i].createFails);
      if !ok {
        return Died, i + 1;
      }
      return Won(workId), i + 1;
    }
    return Exhausted, i;
  }

  /** The error half of a Go `(value, error)` result. */
  datatype Failure = Coded(err: Err) | Shared(ref: ErrVar)

  /** A call either returns `(value, err)` (`err` nil when `None`) or ends the process through `base.ErrorF`. */
  datatype Outcome<T> = Return(value: T, err: Option<Failure>) | Exit

  /**
   * `GetWorkerId`: connect, stamp the claim with the second `now`, run the
   * probe loop. Running out of attempts returns a copy of `ConnErr`.
   */
  method GetWorkerId(ns: Namespace, connectFails: bool, now: int, probes: seq<Probe>)
    returns (o: Outcome<int>)
    requires IsInt64(now) && ValidProbes(probes)
    modifies ns
    ensures connectFails ==> o == Exit && ns.nodes == old(ns.nodes)
    ensures !connectFails ==>
      var c := ClaimFrom(old(ns.nodes), probes, Int64ToBytes(now), 0);
      && ns.nodes == c.nodes
      && o == match c.end
        case Won(id) => Return(id, None)
        case Died => Exit
        case Exhausted => Return(0, Some(Coded(ConnErr)))
  {
    if connectFails {
      return Exit;
    }
    var timeNow := Int64ToBytes(now);
    var end, tried := ClaimLoop(ns, probes, timeNow);
    match end
    case Won(id) => o := Return(id, None);
    case Died => o := Exit;
    case Exhausted => o := Return(0, Some(Coded(ConnErr)));
  }

  /**
   * `GetWorkerIdWithPool`: like GetWorkerId but on a pooled connection.
   * When the loop runs out of attempts, or the pool has no connection, the
   * connection goes back to the pool and the shared `ConnErr` is returned
   * after `WithTrueErr` sets its cause to the loop's last error, which is
   * always nil on that path.
   */
  method GetWorkerIdWithPool(ns: Namespace, poolHasConn: bool, now: int, probes: seq<Probe>, connErr: ErrVar)
    returns (o: Outcome<int>, putBack: bool)
    requires IsInt64(now) && ValidProbes(probes)
    requires connErr.value.Code == ConnErr.Code && connErr.value.Msg == ConnErr.Msg
    modifies ns, connErr
    ensures var c := ClaimFrom(old(ns.nodes), probes, Int64ToBytes(now), 0);
      if poolHasConn && !c.end.Exhausted? then
        && ns.nodes == c.nodes && !putBack && connErr.value == old(connErr.value)
        && o == (if c.end.Won? then Return(c.end.id, None) else Exit)
      else
        && ns.nodes == old(ns.nodes) && putBack
        && o == Return(0, Some(Shared(connErr)))
        && connErr.value == old(connErr.value).(TrueErr := None)
  {
    var err: Option<Cause> := None;
    if poolHasConn {
      var timeNow := Int64ToBytes(now);
      var end, tried := ClaimLoop(ns, probes, timeNow);
      match end
      case Won(id) => return Return(id, None), false;
      case Died => return Exit, false;
      case Exhausted =>
    }
    putBack := true;
    var e := connErr.WithTrueErr(err);
    o := Return(0, Some(Shared(e)));
  }

  // ----- Removing nodes -----

  /** The child paths of `base` that a sweep deletes: those whose delete does not fail. */
  function Swept(nodes: Nodes, base: string, deleteFails: set<string>): set<string> {
    set n | n in ChildNames(nodes, base) && ChildPath(base, n) !in deleteFails :: ChildPath(base, n)
  }

  /**
   * `RemoveAllNode(basePath)`: list the children of `basePath` and delete
   * each `basePath + "/" + child`, skipping the deletes that fail
   * (`deleteFails` holds their paths). A failed listing returns the shared
   * `OpErr` carrying `cause`; otherwise the call returns `ConnErr`, however
   * many deletes succeeded, so it never reports success.
   */
  method RemoveAllNode(ns: Namespace, basePath: string, poolHasConn: bool, childrenFails: bool,
                       cause: Cause, deleteFails: set<string>, opErr: ErrVar)
    returns (o: Outcome<bool>)
    requires opErr.value.Code == OpErr.Code && opErr.value.Msg == OpErr.Msg
    modifies ns, opErr
    ensures o.Return? && o.value == false
    ensures var listed := poolHasConn && !childrenFails && basePath in old(ns.nodes);
      && (poolHasConn && !listed ==>
            o.err == Some(Shared(opErr)) && opErr.value == old(opErr.value).(TrueErr := Some(cause))
            && ns.nodes == old(ns.nodes))
      && (!poolHasConn ==> o.err == Some(Coded(ConnErr)) && opErr.value == old(opErr.value) && ns.nodes == old(ns.nodes))
      && (listed ==>
            o.err == Some(Coded(ConnErr)) && opErr.value == old(opErr.value)
            && ns.nodes == old(ns.nodes) - Swept(old(ns.nodes), basePath, deleteFails))
  {
    if poolHasConn {
      var cds, ok := ns.Children(basePath, childrenFails);
      if !ok {
        var e := opErr.WithTrueErr(Some(cause));
        return Return(false, Some(Shared(e)));
      }
      ghost var start := ns.nodes;
      var i := 0;
      while i < |cds|
        invariant 0 <= i <= |cds|
        invariant ns.nodes == start - (set n | n in cds[..i] && ChildPath(basePath, n) !in deleteFails :: ChildPath(basePath, n))
        invariant opErr.value == old(opErr.value)
      {
        var path := SpliceString([basePath, "/", cds[i]]);
        ConcatFew(basePath, "/", cds[i]);
        ChildPathOf(start, basePath, cds[i]);
        forall j | 0 <= j < i
          ensures ChildPath(basePath, cds[j]) != path
        {
          ChildPathInjective(basePath, cds[j], cds[i]);
        }
        var deleted := ns.Delete(path, path in deleteFails);
        assert cds[..i + 1] == cds[..i] + [cds[i]];
        i := i + 1;
      }
      assert cds[..i] == cds;
    }
    return Return(false, Some(Coded(ConnErr)));
  }

  /**
   * `RemoveNode(basePath, nodePath)`: delete the one node `basePath +
   * nodePath`. A failed delete is fatal; without a pooled connection the call
   * returns `ConnErr`.
   */
  method RemoveNode(ns: Namespace, basePath: string, nodePath: string, poolHasConn: bool, deleteFails: bool)
    returns (o: Outcome<bool>)
    modifies ns
    ensures var path := basePath + nodePath;
      && (!poolHasConn ==> o == Return(false, Some(Coded(ConnErr))) && ns.nodes == old(ns.nodes))
      && (poolHasConn && (deleteFails || path !in old(ns.nodes)) ==> o == Exit && ns.nodes == old(ns.nodes))
      && (poolHasConn && !deleteFails && path in old(ns.nodes) ==>
            o == Return(true, None) && ns.nodes == old(ns.nodes) - {path})
  {
    if poolHasConn {
      var path := SpliceString([basePath, nodePath]);
      ConcatFew(basePath, nodePath, "");
      var ok := ns.Delete(path, deleteFails);
      if !ok {
        return Exit;
      }
      return Return(true, None);
    }
    return Return(false, Some(Coded(ConnErr)));
  }

  /** `Shutdown`: sweep the children of WorkIdPath; closing the error channel is not modelled. */
  method Shutdown(ns: Namespace, poolHasConn: bool, childrenFails: bool, cause: Cause,
                  deleteFails: set<string>, opErr: ErrVar)
    requires opErr.value.Code == OpErr.Code && opErr.value.Msg == OpErr.Msg
    modifies ns, opErr
    ensures var listed := poolHasConn && !childrenFails && WorkIdPath in old(ns.nodes);
      && (listed ==>
            ns.nodes == old(ns.nodes) - Swept(old(ns.nodes), WorkIdPath, deleteFails)
            && opErr.value == old(opErr.value))
      && (poolHasConn && !listed ==>
            ns.nodes == old(ns.nodes) && opErr.value == old(opErr.value).(TrueErr := Some(cause)))
      && (!poolHasConn ==> ns.nodes == old(ns.nodes) && opErr.value == old(opErr.value))
  {
    var _ := RemoveAllNode(ns, WorkIdPath, poolHasConn, childrenFails, cause, deleteFails, opErr);
  }
}
