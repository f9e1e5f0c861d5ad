/** Which crates a push must test: scripts/hooks/rust-test-targets.ts. */
module RustTestTargets {
  import opened Basics
  import opened Ordering

  datatype Plan = Skip | Packages(packages: seq<string>) | Workspace

  datatype Edge = Edge(pkg: string, deps: seq<string>)

  datatype WorkspaceGraph = WorkspaceGraph(members: seq<string>, edges: seq<Edge>)

  const EXCLUDED_PACKAGES := {"freshell-tauri"}

  // ---- Paths. ----

  predicate StartsWith(p: string, prefix: string) {
    prefix <= p
  }

  predicate EndsWith(p: string, suffix: string) {
    |suffix| <= |p| && p[|p| - |suffix|..] == suffix
  }

  /** The last component of the path is `name`. */
  predicate IsFile(p: string, name: string) {
    p == name || EndsWith(p, "/" + name)
  }

  predicate IsRustRelevant(p: string) {
    || EndsWith(p, ".rs")
    || IsFile(p, "Cargo.toml")
    || IsFile(p, "Cargo.lock")
    || StartsWith(p, "rust-toolchain")
    || StartsWith(p, ".cargo/")
    || StartsWith(p, "test/fixtures/")
  }

  /** The index of the first slash, the length when there is none. */
  function FirstSlash(s: string): (i: nat)
    ensures i <= |s| && '/' !in s[..i] && (i < |s| ==> s[i] == '/')
  {
    if s == [] || s[0] == '/' then 0 else
    var i := 1 + FirstSlash(s[1..]);
    assert s[..i] == [s[0]] + s[1..][..i - 1];
    i
  }

  const CRATES := "crates/"

  function CrateNameFor(p: string): Option<string> {
    if !StartsWith(p, CRATES) then None else
    var rest := p[|CRATES|..];
    var slash := FirstSlash(rest);
    if 0 < slash < |rest| then Some(rest[..slash]) else None
  }

  lemma {:induction false} FirstSlashAfter(name: string, more: string)
    requires '/' !in name
    ensures FirstSlash(name + "/" + more) == |name|
  {
    if name != "" {
      assert (name + "/" + more)[1..] == name[1..] + "/" + more;
      FirstSlashAfter(name[1..], more);
    }
  }

  lemma HasCrate(crate: string, more: string)
    requires crate != "" && '/' !in crate
    ensures CrateNameFor(CRATES + (crate + "/" + more)) == Some(crate)
  {
    var rest := crate + "/" + more;
    var p := CRATES + rest;
    assert p[..|CRATES|] == CRATES && p[|CRATES|..] == rest;
    FirstSlashAfter(crate, more);
    assert rest[..|crate|] == crate;
  }

  /** The name is the one directory below `crates/`, and nothing else is. */
  lemma CrateNameExactly(p: string, crate: string)
    ensures CrateNameFor(p) == Some(crate) <==>
      crate != "" && '/' !in crate && exists more :: p == CRATES + (crate + "/" + more)
  {
    if CrateNameFor(p) == Some(crate) {
      var rest := p[|CRATES|..];
      var slash := FirstSlash(rest);
      assert p == CRATES + rest && rest == crate + "/" + rest[slash + 1..];
    } else if more :| p == CRATES + (crate + "/" + more) {
      if crate != "" && '/' !in crate { HasCrate(crate, more); }
    }
  }

  // ---- The graph. ----

  predicate InLane(graph: WorkspaceGraph, pkg: string) {
    pkg in graph.members && pkg !in EXCLUDED_PACKAGES
  }

  predicate Links(graph: WorkspaceGraph, edge: Edge, pkg: string, dep: string) {
    edge.pkg == pkg && dep in edge.deps && InLane(graph, pkg) && InLane(graph, dep)
  }

  /** `pkg` depends on `dep`, both members and neither excluded. */
  predicate DependsOn(graph: WorkspaceGraph, pkg: string, dep: string) {
    exists i :: 0 <= i < |graph.edges| && Links(graph, graph.edges[i], pkg, dep)
  }

  /** Each crate of the path depends on the one before it. */
  predicate IsPath(graph: WorkspaceGraph, path: seq<string>) {
    path != [] && forall i :: 0 < i < |path| ==> DependsOn(graph, path[i], path[i - 1])
  }

  ghost predicate Reaches(graph: WorkspaceGraph, changed: string, target: string) {
    exists path :: IsPath(graph, path) && path[0] == changed && path[|path| - 1] == target
  }

  ghost predicate ReachedFrom(graph: WorkspaceGraph, changed: seq<string>, target: string) {
    exists c :: c in changed && Reaches(graph, c, target)
  }

  // ---- What the plan must be. ----

  predicate Relevant(paths: seq<string>, p: string) {
    p in paths && IsRustRelevant(p)
  }

  /** A relevant path that no crate owns, or that lies in an unknown crate. */
  predicate NeedsWorkspace(graph: WorkspaceGraph, p: string) {
    match CrateNameFor(p)
    case None => true
    case Some(crate) => crate !in EXCLUDED_PACKAGES && crate !in graph.members
  }

  predicate NeedsNothing(p: string) {
    CrateNameFor(p).Some? && CrateNameFor(p).value in EXCLUDED_PACKAGES
  }

  ghost predicate MustTest(paths: seq<string>, graph: WorkspaceGraph, pkg: string) {
    exists p :: Relevant(paths, p) && CrateNameFor(p).Some? && CrateNameFor(p).value !in EXCLUDED_PACKAGES
                && Reaches(graph, CrateNameFor(p).value, pkg)
  }

  /** The plan for these changes, without saying how it is found. */
  ghost predicate IsPlanFor(paths: seq<string>, graph: WorkspaceGraph, plan: Plan) {
    && (plan.Skip? <==> forall p :: Relevant(paths, p) ==> NeedsNothing(p))
    && (plan.Workspace? <==> exists p :: Relevant(paths, p) && NeedsWorkspace(graph, p))
    && (plan.Packages? ==>
          && StrictlySorted(plan.packages)
          && forall pkg :: pkg in plan.packages <==> MustTest(paths, graph, pkg))
  }

  // ---- The program. ----

  predicate Distinct(s: seq<string>) {
    forall i, j :: 0 <= i < j < |s| ==> s[i] != s[j]
  }

  /** `Set.add` on a set kept in insertion order. */
  function Added(s: seq<string>, x: string): (r: seq<string>)
    requires Distinct(s)
    ensures Distinct(r) && forall y :: y in r <==> y in s || y == x
  {
    if x in s then s else s + [x]
  }

  method RustPaths(changedPaths: seq<string>) returns (rustPaths: seq<string>)
    ensures forall p :: p in rustPaths <==> Relevant(changedPaths, p)
  {
    rustPaths := [];
    for i := 0 to |changedPaths|
      invariant forall p :: p in rustPaths <==> Relevant(changedPaths[..i], p)
    {
      if IsRustRelevant(changedPaths[i]) { rustPaths := rustPaths + [changedPaths[i]]; }
      assert changedPaths[..i + 1] == changedPaths[..i] + [changedPaths[i]];
    }
    assert changedPaths[..|changedPaths|] == changedPaths;
  }

  predicate OwnsOne(paths: seq<string>, crate: string) {
    exists p :: p in paths && CrateNameFor(p) == Some(crate)
  }

  /** The crates of the paths; None when some path is in no crate. */
  method ChangedCrates(rustPaths: seq<string>) returns (crates: Option<seq<string>>)
    ensures crates.None? <==> exists p :: p in rustPaths && CrateNameFor(p).None?
    ensures crates.Some? ==> Distinct(crates.value) && forall c :: c in crates.value <==> OwnsOne(rustPaths, c)
  {
    var changedCrates: seq<string> := [];
    for i := 0 to |rustPaths|
      invariant Distinct(changedCrates)
      invariant forall p :: p in rustPaths[..i] ==> CrateNameFor(p).Some?
      invariant forall c :: c in changedCrates <==> OwnsOne(rustPaths[..i], c)
    {
      var crate := CrateNameFor(rustPaths[i]);
      if crate.None? { return None; }
      OwnsOneMore(rustPaths, i, crate.value);
      changedCrates := Added(changedCrates, crate.value);
    }
    assert rustPaths[..|rustPaths|] == rustPaths;
    return Some(changedCrates);
  }

  lemma OwnsOneMore(paths: seq<string>, i: nat, crate: string)
    requires i < |paths| && CrateNameFor(paths[i]) == Some(crate)
    ensures forall p :: p in paths[..i + 1] <==> p in paths[..i] || p == paths[i]
    ensures forall c :: OwnsOne(paths[..i + 1], c) <==> OwnsOne(paths[..i], c) || c == crate
  {
    var front, all := paths[..i], paths[..i + 1];
    assert all == front + [paths[i]];
    assert forall p :: p in all <==> p in front || p == paths[i];
    forall c ensures OwnsOne(all, c) <==> OwnsOne(front, c) || c == crate {
      if OwnsOne(all, c) && c != crate {
        var p :| p in all && CrateNameFor(p) == Some(c);
        assert p in front;
      }
      if OwnsOne(front, c) {
        var p :| p in front && CrateNameFor(p) == Some(c);
        assert p in all;
      }
      if c == crate {
        assert paths[i] in all && CrateNameFor(paths[i]) == Some(c);
      }
    }
  }

  function DependentsOf(dependents: map<string, seq<string>>, dep: string): seq<string> {
    if dep in dependents then dependents[dep] else []
  }

  predicate LinksBefore(graph: WorkspaceGraph, n: nat, pkg: string, dep: string)
    requires n <= |graph.edges|
  {
    exists i :: 0 <= i < n && Links(graph, graph.edges[i], pkg, dep)
  }

  ghost predicate Reverses(graph: WorkspaceGraph, dependents: map<string, seq<string>>) {
    forall pkg, dep :: pkg in DependentsOf(dependents, dep) <==> DependsOn(graph, pkg, dep)
  }

  method ReverseEdges(graph: WorkspaceGraph) returns (dependents: map<string, seq<string>>)
    ensures Reverses(graph, dependents)
  {
    dependents := map[];
    for n := 0 to |graph.edges|
      invariant ReversesBefore(graph, n, dependents)
    {
      var edge := graph.edges[n];
      ghost var before := dependents;
      if InLane(graph, edge.pkg) {
        for k := 0 to |edge.deps|
          invariant Extends(graph, before, dependents, edge.pkg, edge.deps[..k])
        {
          var dep := edge.deps[k];
          assert edge.deps[..k + 1] == edge.deps[..k] + [dep];
          if InLane(graph, dep) {
            dependents := dependents[dep := DependentsOf(dependents, dep) + [edge.pkg]];
          }
        }
        assert edge.deps[..|edge.deps|] == edge.deps;
      } else {
        assert Extends(graph, before, dependents, edge.pkg, edge.deps);
      }
      ReversesOneMore(graph, n, before, dependents);
    }
  }

  ghost predicate ReversesBefore(graph: WorkspaceGraph, n: nat, dependents: map<string, seq<string>>)
    requires n <= |graph.edges|
  {
    forall pkg, dep :: pkg in DependentsOf(dependents, dep) <==> LinksBefore(graph, n, pkg, dep)
  }

  /** `after` is `before` with the links of one package to some dependencies. */
  ghost predicate Extends(graph: WorkspaceGraph, before: map<string, seq<string>>, after: map<string, seq<string>>,
                          pkg: string, deps: seq<string>)
  {
    forall p, d :: p in DependentsOf(after, d) <==>
      p in DependentsOf(before, d) || Links(graph, Edge(pkg, deps), p, d)
  }

  lemma ReversesOneMore(
      graph: WorkspaceGraph, n: nat, before: map<string, seq<string>>, after: map<string, seq<string>>)
    requires n < |graph.edges| && ReversesBefore(graph, n, before)
    requires Extends(graph, before, after, graph.edges[n].pkg, graph.edges[n].deps)
    ensures ReversesBefore(graph, n + 1, after)
  {
    var edge := graph.edges[n];
    assert edge == Edge(edge.pkg, edge.deps);
    forall pkg, dep ensures pkg in DependentsOf(after, dep) <==> LinksBefore(graph, n + 1, pkg, dep) {
      LinksOneMore(graph, n, pkg, dep);
    }
  }

  lemma LinksOneMore(graph: WorkspaceGraph, n: nat, pkg: string, dep: string)
    requires n < |graph.edges|
    ensures LinksBefore(graph, n + 1, pkg, dep) <==>
      LinksBefore(graph, n, pkg, dep) || Links(graph, graph.edges[n], pkg, dep)
  {
  }

  lemma ReachesItself(graph: WorkspaceGraph, c: string)
    ensures Reaches(graph, c, c)
  {
    assert IsPath(graph, [c]);
  }

  lemma ReachesOneMore(graph: WorkspaceGraph, changed: seq<string>, target: string, dependent: string)
    requires ReachedFrom(graph, changed, target) && DependsOn(graph, dependent, target)
    ensures ReachedFrom(graph, changed, dependent)
  {
    var c :| c in changed && Reaches(graph, c, target);
    var path :| IsPath(graph, path) && path[0] == c && path[|path| - 1] == target;
    assert IsPath(graph, path + [dependent]) && (path + [dependent])[0] == c;
    assert Reaches(graph, c, dependent);
  }

  /** Every crate that depends on a member of `targets` is in `more`. */
  predicate ClosedInto(graph: WorkspaceGraph, target: string, more: seq<string>) {
    forall e :: e in graph.edges && Links(graph, e, e.pkg, target) ==> e.pkg in more
  }

  lemma {:induction false} ClosedHoldsPaths(graph: WorkspaceGraph, targets: seq<string>, path: seq<string>)
    requires forall t :: t in targets ==> ClosedInto(graph, t, targets)
    requires IsPath(graph, path) && path[0] in targets
    ensures path[|path| - 1] in targets
  {
    if |path| > 1 {
      assert DependsOn(graph, path[1], path[0]);
      ClosedHoldsPaths(graph, targets, path[1..]);
    }
  }

  function MissingMembers(graph: WorkspaceGraph, targets: seq<string>): set<string> {
    set m | m in graph.members && m !in targets
  }

  /** How many members are not found yet. */
  function Missing(graph: WorkspaceGraph, targets: seq<string>): nat {
    |MissingMembers(graph, targets)|
  }

  lemma MissingShrinks(graph: WorkspaceGraph, targets: seq<string>, found: seq<string>)
    requires forall x :: x in found ==> x in graph.members && x !in targets
    ensures Missing(graph, targets + found) + (if found == [] then 0 else 1) <= Missing(graph, targets)
  {
    var before, after := MissingMembers(graph, targets), MissingMembers(graph, targets + found);
    if found == [] {
      assert after == before;
    } else {
      assert found[0] in found;
      SubsetSize(after, before - {found[0]});
    }
  }

  /** Puts the crates not found yet at the end of both lists. */
  method Visit(list: seq<string>, targets: seq<string>, queue: seq<string>)
    returns (targets': seq<string>, queue': seq<string>, ghost found: seq<string>)
    requires Distinct(targets)
    ensures targets' == targets + found && queue' == queue + found && Distinct(targets')
    ensures forall x :: x in found ==> x in list && x !in EXCLUDED_PACKAGES && x !in targets
    ensures forall x :: x in list ==> x in EXCLUDED_PACKAGES || x in targets'
  {
    targets', queue', found := targets, queue, [];
    for i := 0 to |list|
      invariant targets' == targets + found && queue' == queue + found && Distinct(targets')
      invariant forall x :: x in found ==> x in list && x !in EXCLUDED_PACKAGES && x !in targets
      invariant forall x :: x in list[..i] ==> x in EXCLUDED_PACKAGES || x in targets'
    {
      var dependent := list[i];
      assert list[..i + 1] == list[..i] + [dependent];
      if dependent !in EXCLUDED_PACKAGES && dependent !in targets' {
        targets' := targets' + [dependent];
        queue' := queue' + [dependent];
        found := found + [dependent];
      }
    }
    assert list[..|list|] == list;
  }

  predicate Complete(graph: WorkspaceGraph, targets: seq<string>, queue: seq<string>) {
    && (forall q :: q in queue ==> q in targets)
    && forall t :: t in targets ==> t in queue || ClosedInto(graph, t, targets)
  }

  lemma VisitCompletes(graph: WorkspaceGraph, targets: seq<string>, all: seq<string>, queue: seq<string>,
                       list: seq<string>, found: seq<string>)
    requires Complete(graph, targets, all) && all != [] && queue == all[..|all| - 1]
    requires forall pkg :: pkg in list <==> DependsOn(graph, pkg, all[|all| - 1])
    requires forall x :: x in list ==> x in EXCLUDED_PACKAGES || x in targets + found
    ensures Complete(graph, targets + found, queue + found)
  {
    var cur := all[|all| - 1];
    assert all == queue + [cur];
    forall t | t in targets + found ensures t in queue + found || ClosedInto(graph, t, targets + found) {
      if t == cur {
        forall e | e in graph.edges && Links(graph, e, e.pkg, cur) ensures e.pkg in targets + found {
          assert DependsOn(graph, e.pkg, cur);
        }
      } else if t in targets && t !in queue {
        assert ClosedInto(graph, t, targets);
      }
    }
  }

  lemma VisitIsSound(graph: WorkspaceGraph, candidates: seq<string>, targets: seq<string>, cur: string,
                     list: seq<string>, found: seq<string>)
    requires forall t :: t in targets ==> ReachedFrom(graph, candidates, t)
    requires cur in targets && forall pkg :: pkg in list ==> DependsOn(graph, pkg, cur)
    requires forall x :: x in found ==> x in list
    ensures forall t :: t in targets + found ==> ReachedFrom(graph, candidates, t)
  {
    forall t | t in found ensures ReachedFrom(graph, candidates, t) {
      ReachesOneMore(graph, candidates, cur, t);
    }
  }

  /** Between two turns of the worklist. */
  ghost predicate Working(graph: WorkspaceGraph, candidates: seq<string>, targets: seq<string>, queue: seq<string>) {
    && (forall c :: c in candidates ==> c in targets)
    && (forall t :: t in targets ==> ReachedFrom(graph, candidates, t))
    && Complete(graph, targets, queue)
  }

  lemma StartsWorking(graph: WorkspaceGraph, candidates: seq<string>)
    ensures Working(graph, candidates, candidates, candidates)
  {
    forall c | c in candidates ensures ReachedFrom(graph, candidates, c) {
      ReachesItself(graph, c);
    }
  }

  lemma TurnKeepsWorking(graph: WorkspaceGraph, candidates: seq<string>, dependents: map<string, seq<string>>,
                         targets: seq<string>, queue: seq<string>, found: seq<string>)
    requires Reverses(graph, dependents) && Working(graph, candidates, targets, queue) && queue != []
    requires var list := DependentsOf(dependents, queue[|queue| - 1]);
      && (forall x :: x in found ==> x in list)
      && (forall x :: x in list ==> x in EXCLUDED_PACKAGES || x in targets + found)
    ensures Working(graph, candidates, targets + found, queue[..|queue| - 1] + found)
    ensures forall x :: x in found ==> x in graph.members
  {
    var cur := queue[|queue| - 1];
    var list := DependentsOf(dependents, cur);
    VisitCompletes(graph, targets, queue, queue[..|queue| - 1], list, found);
    VisitIsSound(graph, candidates, targets, cur, list, found);
    forall x | x in found ensures x in graph.members {
      assert DependsOn(graph, x, cur);
    }
  }

  /** The worklist: follows reversed edges from the candidates until nothing new turns up. */
  method Close(graph: WorkspaceGraph, candidates: seq<string>, dependents: map<string, seq<string>>)
    returns (targets: seq<string>)
    requires Distinct(candidates) && Reverses(graph, dependents)
    ensures Distinct(targets) && forall t :: t in targets <==> ReachedFrom(graph, candidates, t)
  {
    targets := candidates;
    var queue := candidates;
    StartsWorking(graph, candidates);
    while queue != []
      invariant Distinct(targets)
      invariant Working(graph, candidates, targets, queue)
      decreases Missing(graph, targets), |queue|
    {
      var cur := queue[|queue| - 1];
      var targets', queue', found := Visit(DependentsOf(dependents, cur), targets, queue[..|queue| - 1]);
      TurnKeepsWorking(graph, candidates, dependents, targets, queue, found);
      MissingShrinks(graph, targets, found);
      targets, queue := targets', queue';
    }
    CompleteHasAll(graph, candidates, targets);
  }

  lemma CompleteHasAll(graph: WorkspaceGraph, candidates: seq<string>, targets: seq<string>)
    requires Complete(graph, targets, []) && forall c :: c in candidates ==> c in targets
    ensures forall t :: ReachedFrom(graph, candidates, t) ==> t in targets
  {
    forall t | ReachedFrom(graph, candidates, t) ensures t in targets {
      var c :| c in candidates && Reaches(graph, c, t);
      var path :| IsPath(graph, path) && path[0] == c && path[|path| - 1] == t;
      ClosedHoldsPaths(graph, targets, path);
    }
  }

  lemma WorkspaceIsRight(paths: seq<string>, graph: WorkspaceGraph)
    requires exists p :: Relevant(paths, p) && NeedsWorkspace(graph, p)
    ensures IsPlanFor(paths, graph, Workspace)
  {
  }

  lemma CandidatesCover(paths: seq<string>, rustPaths: seq<string>, crates: seq<string>, candidates: seq<string>)
    requires forall p :: p in rustPaths <==> Relevant(paths, p)
    requires forall p :: p in rustPaths ==> CrateNameFor(p).Some?
    requires forall c :: c in crates <==> OwnsOne(rustPaths, c)
    requires forall c :: c in candidates <==> c in crates && c !in EXCLUDED_PACKAGES
    ensures forall c :: c in candidates <==>
      c !in EXCLUDED_PACKAGES && exists p :: Relevant(paths, p) && CrateNameFor(p) == Some(c)
    ensures forall p :: Relevant(paths, p) ==> NeedsNothing(p) || CrateNameFor(p).value in candidates
  {
    forall c ensures OwnsOne(rustPaths, c) <==> exists p :: Relevant(paths, p) && CrateNameFor(p) == Some(c) {
    }
    forall p | Relevant(paths, p) ensures NeedsNothing(p) || CrateNameFor(p).value in candidates {
      assert p in rustPaths && CrateNameFor(p) == Some(CrateNameFor(p).value);
      assert OwnsOne(rustPaths, CrateNameFor(p).value);
    }
  }

  lemma SkipIsRight(paths: seq<string>, graph: WorkspaceGraph)
    requires forall p :: Relevant(paths, p) ==> NeedsNothing(p)
    ensures IsPlanFor(paths, graph, Skip)
  {
    assert forall p :: NeedsNothing(p) ==> !NeedsWorkspace(graph, p);
  }

  lemma PackagesAreRight(paths: seq<string>, graph: WorkspaceGraph, candidates: seq<string>, packages: seq<string>)
    requires forall p :: Relevant(paths, p) ==> CrateNameFor(p).Some?
    requires forall c :: c in candidates <==>
      c !in EXCLUDED_PACKAGES && exists p :: Relevant(paths, p) && CrateNameFor(p) == Some(c)
    requires candidates != [] && forall c :: c in candidates ==> c in graph.members
    requires StrictlySorted(packages) && forall t :: t in packages <==> ReachedFrom(graph, candidates, t)
    ensures IsPlanFor(paths, graph, Packages(packages))
  {
    assert candidates[0] in candidates;
    var p :| Relevant(paths, p) && CrateNameFor(p) == Some(candidates[0]);
    assert !NeedsNothing(p);
    forall q | Relevant(paths, q) ensures !NeedsWorkspace(graph, q) {
      var crate := CrateNameFor(q).value;
      assert CrateNameFor(q) == Some(crate);
      assert crate in candidates <==> crate !in EXCLUDED_PACKAGES;
    }
    forall pkg ensures pkg in packages <==> MustTest(paths, graph, pkg) {
      if ReachedFrom(graph, candidates, pkg) {
        var c :| c in candidates && Reaches(graph, c, pkg);
        var q :| Relevant(paths, q) && CrateNameFor(q) == Some(c);
        assert MustTest(paths, graph, pkg);
      }
      if MustTest(paths, graph, pkg) {
        var q :| Relevant(paths, q) && CrateNameFor(q).Some? && CrateNameFor(q).value !in EXCLUDED_PACKAGES
                 && Reaches(graph, CrateNameFor(q).value, pkg);
        assert CrateNameFor(q) == Some(CrateNameFor(q).value);
        assert CrateNameFor(q).value in candidates;
      }
    }
  }

  /** The changed crates that are not excluded, and whether one of them is no member. */
  method Candidates(graph: WorkspaceGraph, crates: seq<string>) returns (candidates: seq<string>, unknown: bool)
    requires Distinct(crates)
    ensures Distinct(candidates) && forall c :: c in candidates <==> c in crates && c !in EXCLUDED_PACKAGES
    ensures unknown <==> exists c :: c in candidates && c !in graph.members
  {
    candidates, unknown := [], false;
    for i := 0 to |crates|
      invariant Distinct(candidates)
      invariant forall c :: c in candidates <==> c in crates[..i] && c !in EXCLUDED_PACKAGES
      invariant unknown <==> exists c :: c in candidates && c !in graph.members
    {
      var crate := crates[i];
      assert crates[..i + 1] == crates[..i] + [crate];
      if crate !in EXCLUDED_PACKAGES {
        candidates := candidates + [crate];
        unknown := unknown || crate !in graph.members;
      }
    }
    assert crates[..|crates|] == crates;
  }

  /** Decides the plan for a push. */
  method ComputeRustTestPlan(changedPaths: seq<string>, graph: WorkspaceGraph) returns (plan: Plan)
    ensures IsPlanFor(changedPaths, graph, plan)
  {
    var rustPaths := RustPaths(changedPaths);
    if rustPaths == [] {
      SkipIsRight(changedPaths, graph);
      return Skip;
    }
    var changedCrates := ChangedCrates(rustPaths);
    if changedCrates.None? {
      WorkspaceIsRight(changedPaths, graph);
      return Workspace;
    }
    var candidates, unknown := Candidates(graph, changedCrates.value);
    CandidatesCover(changedPaths, rustPaths, changedCrates.value, candidates);
    if candidates == [] {
      SkipIsRight(changedPaths, graph);
      return Skip;
    }
    if unknown {
      WorkspaceIsRight(changedPaths, graph);
      return Workspace;
    }
    var dependents := ReverseEdges(graph);
    var targets := Close(graph, candidates, dependents);
    DistinctSortsStrictly(targets);
    PackagesAreRight(changedPaths, graph, candidates, Sort(targets));
    return Packages(Sort(targets));
  }

  // ---- What the specification of the plan gives. ----

  lemma StrictlySortedUnique(s: seq<string>, t: seq<string>)
    requires StrictlySorted(s) && StrictlySorted(t) && forall x :: x in s <==> x in t
    ensures s == t
  {
    StrictIsDistinct(s);
    StrictIsDistinct(t);
    DistinctSameMultiset(s, t);
    SortedUnique(s, t);
  }

  lemma StrictIsDistinct(s: seq<string>)
    requires StrictlySorted(s)
    ensures Distinct(s) && Sorted(s)
  {
    forall i, j | 0 <= i < j < |s| ensures s[i] != s[j] {
      BeforeIrreflexive(s[i]);
    }
  }

  /** The plan depends only on which relevant paths changed: not on their order, nor on repeats. */
  lemma PlanIsDetermined(paths: seq<string>, others: seq<string>, graph: WorkspaceGraph, plan: Plan, other: Plan)
    requires forall p :: Relevant(paths, p) <==> Relevant(others, p)
    requires IsPlanFor(paths, graph, plan) && IsPlanFor(others, graph, other)
    ensures plan == other
  {
    if plan.Packages? && other.Packages? {
      forall pkg ensures pkg in plan.packages <==> pkg in other.packages {
        assert MustTest(paths, graph, pkg) <==> MustTest(others, graph, pkg);
      }
      StrictlySortedUnique(plan.packages, other.packages);
    }
  }

  /** Whether a plan tests the crate. */
  predicate Tests(plan: Plan, graph: WorkspaceGraph, pkg: string) {
    match plan
    case Skip => false
    case Packages(packages) => pkg in packages
    case Workspace => InLane(graph, pkg)
  }

  lemma ReachesInLane(graph: WorkspaceGraph, changed: string, target: string)
    requires InLane(graph, changed) && Reaches(graph, changed, target)
    ensures InLane(graph, target)
  {
    var path :| IsPath(graph, path) && path[0] == changed && path[|path| - 1] == target;
    if |path| > 1 {
      assert DependsOn(graph, path[|path| - 1], path[|path| - 2]);
    }
  }

  /** Whatever the plan, it tests every crate of the lane that reaches a changed crate, and each
      crate it names is in the lane. */
  lemma PlanTestsAllReached(paths: seq<string>, graph: WorkspaceGraph, plan: Plan, pkg: string)
    requires IsPlanFor(paths, graph, plan)
    ensures InLane(graph, pkg) && MustTest(paths, graph, pkg) ==> Tests(plan, graph, pkg)
    ensures Tests(plan, graph, pkg) ==> InLane(graph, pkg)
  {
    if MustTest(paths, graph, pkg) {
      var p :| Relevant(paths, p) && CrateNameFor(p).Some? && CrateNameFor(p).value !in EXCLUDED_PACKAGES
               && Reaches(graph, CrateNameFor(p).value, pkg);
      assert !NeedsNothing(p);
      if plan.Packages? {
        assert !NeedsWorkspace(graph, p);
        ReachesInLane(graph, CrateNameFor(p).value, pkg);
      }
    }
  }

  // ---- The plan on path texts. ----

  /** The six kinds of path that can affect a Rust build, as texts. */
  ghost predicate IsRustText(p: string) {
    || (exists stem :: p == stem + ".rs")
    || p == "Cargo.toml" || (exists dir :: p == dir + "/Cargo.toml")
    || p == "Cargo.lock" || (exists dir :: p == dir + "/Cargo.lock")
    || (exists more :: p == "rust-toolchain" + more)
    || (exists more :: p == ".cargo/" + more)
    || (exists more :: p == "test/fixtures/" + more)
  }

  lemma EndsWithExactly(p: string, suffix: string)
    ensures EndsWith(p, suffix) <==> exists stem :: p == stem + suffix
  {
    if EndsWith(p, suffix) { assert p == p[..|p| - |suffix|] + suffix; }
  }

  lemma StartsWithExactly(p: string, prefix: string)
    ensures StartsWith(p, prefix) <==> exists more :: p == prefix + more
  {
    if StartsWith(p, prefix) { assert p == prefix + p[|prefix|..]; }
  }

  lemma IsFileExactly(p: string, name: string, below: string)
    requires below == "/" + name
    ensures IsFile(p, name) <==> p == name || exists dir :: p == dir + below
  {
    EndsWithExactly(p, below);
  }

  lemma RelevantExactly(p: string)
    ensures IsRustRelevant(p) <==> IsRustText(p)
  {
    EndsWithExactly(p, ".rs");
    IsFileExactly(p, "Cargo.toml", "/Cargo.toml");
    IsFileExactly(p, "Cargo.lock", "/Cargo.lock");
    StartsWithExactly(p, "rust-toolchain");
    StartsWithExactly(p, ".cargo/");
    StartsWithExactly(p, "test/fixtures/");
  }

  /** The path lies in the directory of that crate. */
  ghost predicate LiesIn(p: string, crate: string) {
    crate != "" && '/' !in crate && exists more :: p == "crates/" + (crate + "/" + more)
  }

  lemma LiesInExactly(p: string)
    ensures forall crate :: LiesIn(p, crate) <==> CrateNameFor(p) == Some(crate)
  {
    forall crate ensures LiesIn(p, crate) <==> CrateNameFor(p) == Some(crate) {
      CrateNameExactly(p, crate);
    }
  }

  ghost predicate ChangesRust(paths: seq<string>, p: string) {
    p in paths && IsRustText(p)
  }

  /** A changed path that is in no crate, or in one that is neither a member nor the desktop shell. */
  ghost predicate IsEverybodys(graph: WorkspaceGraph, p: string) {
    forall crate :: LiesIn(p, crate) ==> crate != "freshell-tauri" && crate !in graph.members
  }

  lemma NeedsInText(graph: WorkspaceGraph, p: string)
    ensures NeedsNothing(p) <==> LiesIn(p, "freshell-tauri")
    ensures NeedsWorkspace(graph, p) <==> IsEverybodys(graph, p)
  {
    LiesInExactly(p);
    if CrateNameFor(p).Some? { assert LiesIn(p, CrateNameFor(p).value); }
  }

  /** Nothing is tested exactly when every path of the six kinds lies in the desktop shell, and everything
      exactly when one of them is everybody's. */
  lemma PlanInText(paths: seq<string>, graph: WorkspaceGraph, plan: Plan)
    requires IsPlanFor(paths, graph, plan)
    ensures plan.Skip? <==> forall p :: ChangesRust(paths, p) ==> LiesIn(p, "freshell-tauri")
    ensures plan.Workspace? <==> exists p :: ChangesRust(paths, p) && IsEverybodys(graph, p)
  {
    forall p ensures ChangesRust(paths, p) <==> Relevant(paths, p) {
      RelevantExactly(p);
    }
    forall p ensures NeedsNothing(p) <==> LiesIn(p, "freshell-tauri") {
      NeedsInText(graph, p);
    }
    forall p ensures NeedsWorkspace(graph, p) <==> IsEverybodys(graph, p) {
      NeedsInText(graph, p);
    }
  }

  /** A changed file of the six kinds in the directory of a crate: that crate is tested, if it is a member
      other than the desktop shell, and with it every crate that depends on it, however indirectly. */
  lemma ChangedCrateIsTested(
      paths: seq<string>, graph: WorkspaceGraph, plan: Plan, p: string, crate: string, dependent: string)
    requires IsPlanFor(paths, graph, plan) && ChangesRust(paths, p) && LiesIn(p, crate)
    requires crate in graph.members && crate != "freshell-tauri" && Reaches(graph, crate, dependent)
    ensures Tests(plan, graph, crate) && Tests(plan, graph, dependent)
  {
    RelevantExactly(p);
    LiesInExactly(p);
    ReachesItself(graph, crate);
    assert MustTest(paths, graph, crate) && MustTest(paths, graph, dependent);
    ReachesInLane(graph, crate, dependent);
    PlanTestsAllReached(paths, graph, plan, crate);
    PlanTestsAllReached(paths, graph, plan, dependent);
  }

  /** A push that changes more never tests less. */
  lemma {:induction false} MorePathsTestMore(
      paths: seq<string>, more: seq<string>, graph: WorkspaceGraph, plan: Plan, larger: Plan, pkg: string)
    requires forall p :: p in paths ==> p in more
    requires IsPlanFor(paths, graph, plan) && IsPlanFor(more, graph, larger) && Tests(plan, graph, pkg)
    ensures Tests(larger, graph, pkg)
  {
    forall p | Relevant(paths, p) ensures Relevant(more, p) {
    }
    PlanTestsAllReached(paths, graph, plan, pkg);
    if plan.Packages? {
      var p :| Relevant(paths, p) && CrateNameFor(p).Some? && CrateNameFor(p).value !in EXCLUDED_PACKAGES
               && Reaches(graph, CrateNameFor(p).value, pkg);
      assert Relevant(more, p);
      assert MustTest(more, graph, pkg);
      PlanTestsAllReached(more, graph, larger, pkg);
    } else {
      var p :| Relevant(paths, p) && NeedsWorkspace(graph, p);
      assert Relevant(more, p);
    }
  }
}
