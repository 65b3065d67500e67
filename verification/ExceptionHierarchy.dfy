// The exception hierarchy check (scripts/architecture/check_exception_hierarchy.py): a
// depth-first search for a known-good base, sharing one visited set among siblings.
module ExceptionHierarchy {

  const CANONICAL_BASE := "TradeXV2Error"

  const KNOWN_GOOD_BASES := {
    "TradeXV2Error", "BrokerError", "RetryableError", "NonRetryableError", "RateLimitError",
    "CircuitBreakerOpenError", "AuthenticationError", "InstrumentNotFoundError", "OrderError",
    "NotSupportedError", "ExitAllError", "BrokerDegradedError", "DataError", "ConfigError",
    "ValidationError", "DhanError", "UpstoxApiError", "UpstoxAuthError", "StreamError", "NetworkError"
  }

  const ALLOWED_STANDARD_BASES := {
    "ValueError", "TypeError", "KeyError", "AttributeError", "ImportError", "ModuleNotFoundError"
  }

  // Class name to the names of its bases; any graph, cycles and missing classes included.
  type Hierarchy = map<string, seq<string>>

  ghost predicate IsPath(h: Hierarchy, p: seq<string>) {
    && p != []
    && forall i :: 0 <= i < |p| - 1 ==> p[i] in h && p[i + 1] in h[p[i]]
  }

  // Some chain of bases leads from `name` to a good one.
  ghost predicate ReachesGood(name: string, h: Hierarchy, good: set<string>) {
    exists p :: IsPath(h, p) && p[0] == name && p[|p| - 1] in good
  }

  ghost predicate DeadEnd(name: string, h: Hierarchy, good: set<string>) {
    name !in good && name !in h
  }

  // Every class visited since `before` is not good, and neither search nor graph goes on
  // from it except to visited classes.
  ghost predicate Exhausted(before: set<string>, after: set<string>, h: Hierarchy, good: set<string>) {
    forall x :: x in after && x !in before ==>
      x in h && x !in good && forall b :: b in h[x] ==> b in after || DeadEnd(b, h, good)
  }

  class Visited {
    var names: set<string>

    constructor ()
      ensures names == {}
    {
      names := {};
    }
  }

  lemma ReachesThroughBase(name: string, base: string, h: Hierarchy, good: set<string>)
    requires name in h && base in h[name] && ReachesGood(base, h, good)
    ensures ReachesGood(name, h, good)
  {
    var p :| IsPath(h, p) && p[0] == base && p[|p| - 1] in good;
    var q := [name] + p;
    assert IsPath(h, q) by {
      forall i | 0 <= i < |q| - 1
        ensures q[i] in h && q[i + 1] in h[q[i]]
      {
        if i > 0 {
          assert q[i] == p[i - 1] && q[i + 1] == p[i];
        }
      }
    }
    assert q[|q| - 1] == p[|p| - 1];
  }

  method InheritsFromGoodBase(name: string, h: Hierarchy, good: set<string>, visited: Visited) returns (found: bool)
    modifies visited
    ensures old(visited.names) <= visited.names
    ensures found ==> ReachesGood(name, h, good)
    ensures !found ==> Exhausted(old(visited.names), visited.names, h, good)
    ensures !found ==> name in visited.names || DeadEnd(name, h, good)
    decreases h.Keys - visited.names
  {
    if name in good {
      assert IsPath(h, [name]);
      return true;
    }
    if name in visited.names || name !in h {
      return false;
    }
    ghost var before := visited.names;
    visited.names := visited.names + {name};
    for n := 0 to |h[name]|
      invariant before + {name} <= visited.names
      invariant Exhausted(before + {name}, visited.names, h, good)
      invariant forall k :: 0 <= k < n ==> h[name][k] in visited.names || DeadEnd(h[name][k], h, good)
    {
      found := InheritsFromGoodBase(h[name][n], h, good, visited);
      if found {
        ReachesThroughBase(name, h[name][n], h, good);
        return true;
      }
    }
    return false;
  }

  // No path leaves an exhausted set for a good base.
  lemma {:induction false} ExhaustedReachesNothing(seen: set<string>, h: Hierarchy, good: set<string>, p: seq<string>)
    requires Exhausted({}, seen, h, good)
    requires IsPath(h, p) && (p[0] in seen || DeadEnd(p[0], h, good))
    ensures p[|p| - 1] !in good
  {
    if |p| > 1 {
      assert p[0] in h && p[1] in h[p[0]];
      assert IsPath(h, p[1..]);
      ExhaustedReachesNothing(seen, h, good, p[1..]);
    }
  }

  // The search with a fresh visited set is exact on every graph.
  method SearchFromScratch(name: string, h: Hierarchy, good: set<string>) returns (found: bool)
    ensures found <==> ReachesGood(name, h, good)
  {
    var visited := new Visited();
    found := InheritsFromGoodBase(name, h, good, visited);
    if !found && ReachesGood(name, h, good) {
      ghost var p :| IsPath(h, p) && p[0] == name && p[|p| - 1] in good;
      ExhaustedReachesNothing(visited.names, h, good, p);
    }
  }

  // ---- Scanning one file ------------------------------------------------------------------

  // A class statement: its name, the plain names among its bases, and its line.
  datatype ClassDef = ClassDef(name: string, bases: seq<string>, line: int)

  datatype Violation = Violation(line: int, className: string, baseClass: string)

  // A later class statement of the same name replaces an earlier one.
  function HierarchyOf(nodes: seq<ClassDef>): Hierarchy {
    if nodes == [] then map[]
    else HierarchyOf(nodes[..|nodes| - 1])[nodes[|nodes| - 1].name := nodes[|nodes| - 1].bases]
  }

  predicate Contains(s: string, part: string) {
    part <= s || (s != "" && Contains(s[1..], part))
  }

  lemma {:induction false} ContainsIff(s: string, part: string)
    ensures Contains(s, part) <==> exists i :: 0 <= i <= |s| && part <= s[i..]
  {
    assert s[0..] == s;
    if s != "" {
      var rest := s[1..];
      ContainsIff(rest, part);
      assert forall i :: 0 <= i <= |rest| ==> rest[i..] == s[i + 1..];
      forall i | 0 < i <= |s| && part <= s[i..]
        ensures part <= rest[i - 1..]
      {
        assert rest[i - 1..] == s[i..];
      }
    }
  }

  predicate LooksLikeException(bases: seq<string>) {
    exists i :: 0 <= i < |bases| && (Contains(bases[i], "Error") || Contains(bases[i], "Exception"))
  }

  ghost predicate Violates(node: ClassDef, h: Hierarchy, good: set<string>, allowed: set<string>)
    requires node.name in h
  {
    && node.name != CANONICAL_BASE
    && LooksLikeException(h[node.name])
    && (forall b :: b in h[node.name] ==> !ReachesGood(b, h, good) && b !in allowed)
  }

  ghost function Violations(nodes: seq<ClassDef>, h: Hierarchy, good: set<string>, allowed: set<string>): seq<Violation>
    requires forall n :: n in nodes ==> n.name in h
  {
    if nodes == [] then []
    else
      var front, node := nodes[..|nodes| - 1], nodes[|nodes| - 1];
      Violations(front, h, good, allowed)
      + if Violates(node, h, good, allowed) then [Violation(node.line, node.name, h[node.name][0])] else []
  }

  // The i-th statement is the last one of its class.
  ghost predicate IsLastOf(nodes: seq<ClassDef>, i: nat, name: string) {
    && i < |nodes| && nodes[i].name == name
    && forall j :: i < j < |nodes| ==> nodes[j].name != name
  }

  // A class has the bases of its last class statement.
  lemma {:induction false} LastStatementCounts(nodes: seq<ClassDef>, i: nat, name: string)
    ensures IsLastOf(nodes, i, name) ==> name in HierarchyOf(nodes) && HierarchyOf(nodes)[name] == nodes[i].bases
    ensures name in HierarchyOf(nodes) ==> exists k: nat :: IsLastOf(nodes, k, name)
  {
    if nodes != [] {
      var front, last := nodes[..|nodes| - 1], nodes[|nodes| - 1];
      assert nodes == front + [last];
      LastStatementCounts(front, i, name);
      if last.name == name {
        assert IsLastOf(nodes, |front|, name);
      } else if name in HierarchyOf(front) {
        var k: nat :| IsLastOf(front, k, name);
        assert IsLastOf(nodes, k, name);
      }
    }
  }

  // The class's own statement would be reported by its bases.
  ghost predicate Reportable(name: string, bases: seq<string>, h: Hierarchy, good: set<string>, allowed: set<string>) {
    && name != "TradeXV2Error"
    && (exists b, i :: b in bases && 0 <= i <= |b| && ("Error" <= b[i..] || "Exception" <= b[i..]))
    && (forall b :: b in bases ==> b !in allowed && !ReachesGood(b, h, good))
  }

  // One report per reportable class statement, in their order.
  lemma {:induction false} ReportsEachViolation(nodes: seq<ClassDef>, h: Hierarchy, good: set<string>,
                                                allowed: set<string>)
    requires nodes != [] && forall n :: n in nodes ==> n.name in h
    ensures
      var front, node := nodes[..|nodes| - 1], nodes[|nodes| - 1];
      if Reportable(node.name, h[node.name], h, good, allowed) then
        && |Violations(nodes, h, good, allowed)| == |Violations(front, h, good, allowed)| + 1
        && Violations(front, h, good, allowed) < Violations(nodes, h, good, allowed)
        && var v := Violations(nodes, h, good, allowed)[|Violations(front, h, good, allowed)|];
        && (v.line, v.className) == (node.line, node.name) && h[node.name] != [] && v.baseClass == h[node.name][0]
      else Violations(nodes, h, good, allowed) == Violations(front, h, good, allowed)
  {
    var node := nodes[|nodes| - 1];
    assert node in nodes;
    var bases := h[node.name];
    NamesAnException(bases);
  }

  lemma NamesAnException(bases: seq<string>)
    ensures LooksLikeException(bases)
       <==> exists b, i :: b in bases && 0 <= i <= |b| && ("Error" <= b[i..] || "Exception" <= b[i..])
  {
    forall b | b in bases
      ensures Contains(b, "Error") || Contains(b, "Exception")
         <==> exists i :: 0 <= i <= |b| && ("Error" <= b[i..] || "Exception" <= b[i..])
    {
      ContainsIff(b, "Error");
      ContainsIff(b, "Exception");
    }
  }

  lemma {:induction false} HierarchyCoversNodes(nodes: seq<ClassDef>)
    ensures forall n :: n in nodes ==> n.name in HierarchyOf(nodes)
  {
    if nodes != [] {
      HierarchyCoversNodes(nodes[..|nodes| - 1]);
      assert nodes == nodes[..|nodes| - 1] + [nodes[|nodes| - 1]];
    }
  }

  method InheritsFromGood(bases: seq<string>, h: Hierarchy, good: set<string>) returns (found: bool)
    ensures found <==> exists b :: b in bases && ReachesGood(b, h, good)
  {
    for n := 0 to |bases|
      invariant forall k :: 0 <= k < n ==> !ReachesGood(bases[k], h, good)
    {
      if bases[n] in good {
        assert IsPath(h, [bases[n]]);
        assert ReachesGood(bases[n], h, good);
        return true;
      }
      found := SearchFromScratch(bases[n], h, good);
      if found {
        return true;
      }
    }
    return false;
  }

  // Whether one class statement is reported.
  method IsViolation(node: ClassDef, h: Hierarchy, good: set<string>, allowed: set<string>) returns (reported: bool)
    requires node.name in h
    ensures reported <==> Violates(node, h, good, allowed)
  {
    var bases := h[node.name];
    if node.name == CANONICAL_BASE || !LooksLikeException(bases) {
      return false;
    }
    var inheritsFromGood := InheritsFromGood(bases, h, good);
    var inheritsFromStandard := exists b | b in bases :: b in allowed;
    return !inheritsFromGood && !inheritsFromStandard;
  }

  // Exactly the exception classes without a chain to a good base and without an allowed
  // standard base are reported, in the order in which `nodes` lists the class statements:
  // that of the walk over the syntax tree, breadth first.
  method ScanFile(nodes: seq<ClassDef>, good: set<string>, allowed: set<string>) returns (violations: seq<Violation>)
    ensures forall n :: n in nodes ==> n.name in HierarchyOf(nodes)
    ensures violations == Violations(nodes, HierarchyOf(nodes), good, allowed)
  {
    var h: Hierarchy := map[];
    for n := 0 to |nodes|
      invariant h == HierarchyOf(nodes[..n])
    {
      assert nodes[..n + 1][..n] == nodes[..n];
      h := h[nodes[n].name := nodes[n].bases];
    }
    assert nodes[..|nodes|] == nodes;
    HierarchyCoversNodes(nodes);
    violations := [];
    for n := 0 to |nodes|
      invariant forall k :: k in nodes[..n] ==> k.name in h
      invariant violations == Violations(nodes[..n], h, good, allowed)
    {
      assert nodes[n] in nodes;
      assert nodes[..n + 1][..n] == nodes[..n];
      var reported := IsViolation(nodes[n], h, good, allowed);
      if reported {
        violations := violations + [Violation(nodes[n].line, nodes[n].name, h[nodes[n].name][0])];
      }
    }
  }

  method ScanRepositoryFile(nodes: seq<ClassDef>) returns (violations: seq<Violation>)
    ensures forall n :: n in nodes ==> n.name in HierarchyOf(nodes)
    ensures violations == Violations(nodes, HierarchyOf(nodes), KNOWN_GOOD_BASES, ALLOWED_STANDARD_BASES)
  {
    violations := ScanFile(nodes, KNOWN_GOOD_BASES, ALLOWED_STANDARD_BASES);
  }
}
