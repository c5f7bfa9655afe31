/**
 * Dependency tracking between SystemVerilog syntax trees.
 *
 * A syntax tree is an opaque identity together with the parser metadata the
 * tracker consumes: the module names the tree declares and the names it
 * references. The tracker resolves references to trees once, at construction,
 * and then answers "which trees does this request need, dependencies first"
 * by a depth-first search that tolerates cycles.
 */
module DepTracker {

  type TreeId = nat
  type Name = string

  /** A syntax tree as the tracker sees it: its identity and its metadata. */
  datatype SyntaxTree = SyntaxTree(id: TreeId, declared: seq<Name>, referenced: seq<Name>)

  /** Either the direct dependencies of one tree or the transitive closure of a request. */
  datatype Deps = Deps(deps: seq<TreeId>, missingNames: seq<Name>)

  predicate Distinct<T(==)>(s: seq<T>)
  {
    forall i, j :: 0 <= i < j < |s| ==> s[i] != s[j]
  }

  // ---------------------------------------------------------------------------
  // What the constructor computes
  // ---------------------------------------------------------------------------

  /** `emplace` each of `names` in turn: a name already present keeps its tree. */
  function DeclareAll(moduleToTree: map<Name, TreeId>, names: seq<Name>, tree: TreeId): map<Name, TreeId>
  {
    if names == [] then moduleToTree
    else
      var m := DeclareAll(moduleToTree, names[..|names| - 1], tree);
      var n := names[|names| - 1];
      if n in m then m else m[n := tree]
  }

  lemma {:induction false} DeclareAllSpec(moduleToTree: map<Name, TreeId>, names: seq<Name>, tree: TreeId, n: Name)
    ensures n in DeclareAll(moduleToTree, names, tree) <==> n in moduleToTree || n in names
    ensures n in moduleToTree ==> DeclareAll(moduleToTree, names, tree)[n] == moduleToTree[n]
    ensures n !in moduleToTree && n in names ==> DeclareAll(moduleToTree, names, tree)[n] == tree
  {
    if names != [] {
      var init := names[..|names| - 1];
      DeclareAllSpec(moduleToTree, init, tree, n);
      assert names == init + [names[|names| - 1]];
    }
  }

  /** Name -> declaring tree; a name declared twice keeps its earliest declarer. */
  function DeclaredModules(trees: seq<SyntaxTree>): map<Name, TreeId>
  {
    if trees == [] then map[]
    else
      var t := trees[|trees| - 1];
      DeclareAll(DeclaredModules(trees[..|trees| - 1]), t.declared, t.id)
  }

  /** Tree -> referenced names; a tree listed twice keeps its first metadata. */
  function ReferencesByTree(trees: seq<SyntaxTree>): map<TreeId, seq<Name>>
  {
    if trees == [] then map[]
    else
      var earlier := ReferencesByTree(trees[..|trees| - 1]);
      var t := trees[|trees| - 1];
      if t.id in earlier then earlier else earlier[t.id := t.referenced]
  }

  /** The trees that declare `names`, in order, skipping names that nobody declares. */
  function FoundTrees(moduleToTree: map<Name, TreeId>, names: seq<Name>): seq<TreeId>
  {
    if names == [] then []
    else
      var n := names[|names| - 1];
      FoundTrees(moduleToTree, names[..|names| - 1]) + (if n in moduleToTree then [moduleToTree[n]] else [])
  }

  lemma {:induction false} DeclaredModulesKeys(trees: seq<SyntaxTree>, n: Name)
    ensures n in DeclaredModules(trees) <==> exists i :: 0 <= i < |trees| && n in trees[i].declared
  {
    if trees != [] {
      var init := trees[..|trees| - 1];
      var last := trees[|trees| - 1];
      DeclaredModulesKeys(init, n);
      DeclareAllSpec(DeclaredModules(init), last.declared, last.id, n);
      if n in DeclaredModules(init) {
        var i :| 0 <= i < |init| && n in init[i].declared;
        assert trees[i] == init[i];
      }
      if i :| 0 <= i < |trees| && n in trees[i].declared {
        if i < |init| {
          assert init[i] == trees[i];
        }
      }
    }
  }

  /** `emplace` never overwrites: the first tree in the input that declares a name owns it. */
  lemma {:induction false} FirstDeclarerWins(trees: seq<SyntaxTree>, i: nat, n: Name)
    requires i < |trees| && n in trees[i].declared
    requires forall j :: 0 <= j < i ==> n !in trees[j].declared
    ensures n in DeclaredModules(trees) && DeclaredModules(trees)[n] == trees[i].id
  {
    var init := trees[..|trees| - 1];
    var last := trees[|trees| - 1];
    if i < |init| {
      assert init[i] == trees[i];
      FirstDeclarerWins(init, i, n);
      DeclareAllSpec(DeclaredModules(init), last.declared, last.id, n);
    } else {
      DeclaredModulesKeys(init, n);
      DeclareAllSpec(DeclaredModules(init), last.declared, last.id, n);
    }
  }

  /** Every declaring tree is one of the input trees. */
  lemma {:induction false} DeclaredModulesValues(trees: seq<SyntaxTree>, n: Name)
    requires n in DeclaredModules(trees)
    ensures DeclaredModules(trees)[n] in ReferencesByTree(trees)
  {
    var init := trees[..|trees| - 1];
    var last := trees[|trees| - 1];
    DeclareAllSpec(DeclaredModules(init), last.declared, last.id, n);
    if n in DeclaredModules(init) {
      DeclaredModulesValues(init, n);
    }
  }

  lemma {:induction false} ReferencesByTreeKeys(trees: seq<SyntaxTree>, t: TreeId)
    ensures t in ReferencesByTree(trees) <==> exists i :: 0 <= i < |trees| && trees[i].id == t
  {
    if trees != [] {
      var init := trees[..|trees| - 1];
      ReferencesByTreeKeys(init, t);
      if t in ReferencesByTree(init) {
        var i :| 0 <= i < |init| && init[i].id == t;
        assert trees[i] == init[i];
      }
      if i :| 0 <= i < |trees| && trees[i].id == t {
        if i < |init| {
          assert init[i] == trees[i];
        }
      }
    }
  }

  lemma {:induction false} FoundTreesMembers(moduleToTree: map<Name, TreeId>, names: seq<Name>, t: TreeId)
    ensures t in FoundTrees(moduleToTree, names) <==>
            exists n :: n in names && n in moduleToTree && moduleToTree[n] == t
  {
    if names != [] {
      var init := names[..|names| - 1];
      FoundTreesMembers(moduleToTree, init, t);
      if n :| n in names && n in moduleToTree && moduleToTree[n] == t {
        if n != names[|names| - 1] {
          assert n in init;
        }
      }
    }
  }

  lemma ElementsOf<T>(s: seq<T>, k: set<T>)
    requires forall x :: x in s <==> x in k
    ensures (set x | x in s) == k
  {
  }

  /** The trees found for `names` are exactly the declarers of the declared names among them. */
  lemma FoundTreesSet(moduleToTree: map<Name, TreeId>, names: seq<Name>)
    ensures (set t | t in FoundTrees(moduleToTree, names)) ==
            (set n | n in names && n in moduleToTree :: moduleToTree[n])
  {
    forall t ensures t in FoundTrees(moduleToTree, names) <==> exists n :: n in names && n in moduleToTree && moduleToTree[n] == t {
      FoundTreesMembers(moduleToTree, names, t);
    }
  }

  /** Per-tree resolution as the constructor leaves it, for the trees in `done`. */
  ghost predicate ResolvedFor(moduleToTree: map<Name, TreeId>, refs: map<TreeId, seq<Name>>,
                              done: set<TreeId>, treeToDeps: map<TreeId, Deps>)
  {
    && treeToDeps.Keys == done
    && done <= refs.Keys
    && forall t :: t in treeToDeps ==>
         && treeToDeps[t].deps == FoundTrees(moduleToTree, refs[t])
         && Distinct(treeToDeps[t].missingNames)
         && forall n :: n in treeToDeps[t].missingNames <==> n in refs[t] && n !in moduleToTree
  }

  /** How often tree `t` is recorded under the missing name `n` once the trees in `done` are resolved. */
  ghost function MissingCount(moduleToTree: map<Name, TreeId>, refs: map<TreeId, seq<Name>>,
                              done: set<TreeId>, n: Name, t: TreeId): nat
  {
    if t in done && t in refs && n !in moduleToTree then Occurrences(refs[t], n) else 0
  }

  /**
   * The global missing-name index: a key is exactly an unresolved name, and
   * it lists each referencing tree once per reference (in unspecified order).
   */
  ghost predicate MissingIndexed(moduleToTree: map<Name, TreeId>, refs: map<TreeId, seq<Name>>,
                                 done: set<TreeId>, missingNames: map<Name, seq<TreeId>>)
  {
    && (forall n :: n in missingNames ==> n !in moduleToTree && missingNames[n] != [])
    && (forall n, t :: multiset(Listed(missingNames, n))[t] == MissingCount(moduleToTree, refs, done, n, t))
  }

  /** Recording one more tree keeps the index exact for the trees resolved so far. */
  lemma RecordPreservesIndex(moduleToTree: map<Name, TreeId>, refs: map<TreeId, seq<Name>>, done: set<TreeId>,
                             tree: TreeId, missingNames: map<Name, seq<TreeId>>)
    requires tree in refs && tree !in done
    requires MissingIndexed(moduleToTree, refs, done, missingNames)
    ensures MissingIndexed(moduleToTree, refs, done + {tree}, FileMissing(moduleToTree, tree, refs[tree], missingNames))
  {
    var m' := FileMissing(moduleToTree, tree, refs[tree], missingNames);
    forall n, t ensures multiset(Listed(m', n))[t] == MissingCount(moduleToTree, refs, done + {tree}, n, t) {
      FileMissingCount(moduleToTree, tree, refs[tree], missingNames, n, t);
    }
    forall n | n in m' ensures n !in moduleToTree && m'[n] != [] {
      FileMissingKeys(moduleToTree, tree, refs[tree], missingNames, n);
      if n in missingNames {
        assert missingNames[n] <= m'[n];
      }
    }
  }

  /** The hash containers' iteration order is unspecified: any listing of `s` without repeats. */
  method SetToSeq<T>(s: set<T>) returns (r: seq<T>)
    ensures Distinct(r)
    ensures forall x :: x in r <==> x in s
  {
    r := [];
    var rest := s;
    while rest != {}
      invariant rest <= s
      invariant Distinct(r)
      invariant forall x :: x in r <==> x in s && x !in rest
      decreases rest
    {
      var x :| x in rest;
      r := r + [x];
      rest := rest - {x};
    }
  }

  /** The trees recorded under a missing name so far (none if it is not a key). */
  function Listed(missingNames: map<Name, seq<TreeId>>, n: Name): seq<TreeId>
  {
    if n in missingNames then missingNames[n] else []
  }

  /** The constructor's first pass: record every tree's declared names and referenced names. */
  method RecordMetadata(syntaxTrees: seq<SyntaxTree>) returns (moduleToTree: map<Name, TreeId>, localTreeToDeps: map<TreeId, seq<Name>>)
    ensures moduleToTree == DeclaredModules(syntaxTrees)
    ensures localTreeToDeps == ReferencesByTree(syntaxTrees)
  {
    moduleToTree, localTreeToDeps := map[], map[];
    for i := 0 to |syntaxTrees|
      invariant moduleToTree == DeclaredModules(syntaxTrees[..i])
      invariant localTreeToDeps == ReferencesByTree(syntaxTrees[..i])
    {
      var tree := syntaxTrees[i];
      assert syntaxTrees[..i + 1][..i] == syntaxTrees[..i];
      ghost var earlier := moduleToTree;
      for j := 0 to |tree.declared|
        invariant moduleToTree == DeclareAll(earlier, tree.declared[..j], tree.id)
      {
        var name := tree.declared[j];
        assert tree.declared[..j + 1][..j] == tree.declared[..j];
        if name !in moduleToTree {
          moduleToTree := moduleToTree[name := tree.id];
        }
      }
      assert tree.declared[..|tree.declared|] == tree.declared;
      if tree.id !in localTreeToDeps {
        localTreeToDeps := localTreeToDeps[tree.id := tree.referenced];
      }
    }
    assert syntaxTrees[..|syntaxTrees|] == syntaxTrees;
  }

  /** The missing-name index after recording `tree` under each of `names` that nobody declares. */
  function FileMissing(moduleToTree: map<Name, TreeId>, tree: TreeId, names: seq<Name>,
                       missingNames: map<Name, seq<TreeId>>): map<Name, seq<TreeId>>
  {
    if names == [] then missingNames
    else
      var m := FileMissing(moduleToTree, tree, names[..|names| - 1], missingNames);
      var n := names[|names| - 1];
      if n in moduleToTree then m else m[n := Listed(m, n) + [tree]]
  }

  /**
   * Recording only appends: old lists are kept as prefixes, and a new key is
   * an unresolved name with a non-empty list.
   */
  lemma {:induction false} FileMissingKeys(moduleToTree: map<Name, TreeId>, tree: TreeId, names: seq<Name>,
                                           missingNames: map<Name, seq<TreeId>>, n: Name)
    ensures n in FileMissing(moduleToTree, tree, names, missingNames) <==>
            n in missingNames || (n in names && n !in moduleToTree)
    ensures n in missingNames ==> missingNames[n] <= FileMissing(moduleToTree, tree, names, missingNames)[n]
    ensures n in FileMissing(moduleToTree, tree, names, missingNames) && n !in missingNames ==>
            FileMissing(moduleToTree, tree, names, missingNames)[n] != []
  {
    if names != [] {
      var init := names[..|names| - 1];
      var last := names[|names| - 1];
      FileMissingKeys(moduleToTree, tree, init, missingNames, n);
      assert names == init + [last];
      var m := FileMissing(moduleToTree, tree, init, missingNames);
      if last !in moduleToTree && last == n && n in missingNames {
        assert missingNames[n] <= Listed(m, n) <= Listed(m, n) + [tree];
      }
    }
  }

  /** How many times `n` occurs in `names`. */
  function Occurrences(names: seq<Name>, n: Name): nat
  {
    if names == [] then 0
    else Occurrences(names[..|names| - 1], n) + (if names[|names| - 1] == n then 1 else 0)
  }

  /** `tree` is recorded under `n` once per reference to the unresolved name `n`. */
  lemma {:induction false} FileMissingCount(moduleToTree: map<Name, TreeId>, tree: TreeId, names: seq<Name>,
                                            missingNames: map<Name, seq<TreeId>>, n: Name, t: TreeId)
    ensures multiset(Listed(FileMissing(moduleToTree, tree, names, missingNames), n))[t] ==
            multiset(Listed(missingNames, n))[t] + (if t == tree && n !in moduleToTree then Occurrences(names, n) else 0)
  {
    if names != [] {
      var init := names[..|names| - 1];
      var last := names[|names| - 1];
      FileMissingCount(moduleToTree, tree, init, missingNames, n, t);
      var before := Listed(FileMissing(moduleToTree, tree, init, missingNames), n);
      var added: seq<TreeId> := if last == n && last !in moduleToTree then [tree] else [];
      assert Listed(FileMissing(moduleToTree, tree, names, missingNames), n) == before + added;
      assert multiset(before + added) == multiset(before) + multiset(added);
    }
  }

  /**
   * The constructor's second pass for one tree: the trees its references name,
   * in reference order; its unresolved names, once each; and the missing-name
   * index with `tree` recorded under each unresolved reference.
   */
  method ResolveTree(moduleToTree: map<Name, TreeId>, tree: TreeId, names: seq<Name>, missingNames: map<Name, seq<TreeId>>)
    returns (d: Deps, missingNames': map<Name, seq<TreeId>>)
    ensures d.deps == FoundTrees(moduleToTree, names)
    ensures Distinct(d.missingNames)
    ensures forall n :: n in d.missingNames <==> n in names && n !in moduleToTree
    ensures missingNames' == FileMissing(moduleToTree, tree, names, missingNames)
  {
    var depTrees: seq<TreeId> := [];
    var missingDeps: set<Name> := {};
    missingNames' := missingNames;
    for j := 0 to |names|
      invariant depTrees == FoundTrees(moduleToTree, names[..j])
      invariant forall n :: n in missingDeps <==> n in names[..j] && n !in moduleToTree
      invariant missingNames' == FileMissing(moduleToTree, tree, names[..j], missingNames)
    {
      var depName := names[j];
      assert names[..j + 1][..j] == names[..j];
      assert names[..j + 1] == names[..j] + [depName];
      if depName in moduleToTree {
        depTrees := depTrees + [moduleToTree[depName]];
      } else {
        missingNames' := missingNames'[depName := Listed(missingNames', depName) + [tree]];
        missingDeps := missingDeps + {depName};
      }
    }
    assert names[..|names|] == names;
    var missingList := SetToSeq(missingDeps);
    d := Deps(depTrees, missingList);
  }

  // ---------------------------------------------------------------------------
  // The dependency graph and what the search promises about it
  // ---------------------------------------------------------------------------

  /** `a` depends on `b`. */
  ghost predicate Edge(g: map<TreeId, Deps>, a: TreeId, b: TreeId)
  {
    a in g && b in g[a].deps
  }

  ghost predicate IsPath(g: map<TreeId, Deps>, p: seq<TreeId>)
  {
    |p| > 0 && forall k :: 0 <= k < |p| - 1 ==> Edge(g, p[k], p[k + 1])
  }

  /** `b` is reachable from `a` through zero or more dependency edges. */
  ghost predicate Reaches(g: map<TreeId, Deps>, a: TreeId, b: TreeId)
  {
    exists p :: IsPath(g, p) && p[0] == a && p[|p| - 1] == b
  }

  /** No tree depends, directly or transitively, on itself. */
  ghost predicate Acyclic(g: map<TreeId, Deps>)
  {
    forall a, b :: Edge(g, a, b) ==> !Reaches(g, b, a)
  }

  /** Every dependency target is itself a tracked tree. */
  ghost predicate DepsClosed(g: map<TreeId, Deps>)
  {
    forall a, b :: Edge(g, a, b) ==> b in g
  }

  /** The missing names a tree contributes (none if the graph does not know it). */
  function OwnMissing(g: map<TreeId, Deps>, t: TreeId): seq<Name>
  {
    if t in g then g[t].missingNames else []
  }

  /** The missing names of `trees`, concatenated in order. */
  function MissingOf(g: map<TreeId, Deps>, trees: seq<TreeId>): seq<Name>
  {
    if trees == [] then []
    else MissingOf(g, trees[..|trees| - 1]) + OwnMissing(g, trees[|trees| - 1])
  }

  /** Every dependency in `r` comes before its dependent, unless the dependency leads back to it. */
  ghost predicate DependencyOrder(g: map<TreeId, Deps>, r: seq<TreeId>)
  {
    forall i, j :: 0 <= i < |r| && 0 <= j < |r| && Edge(g, r[i], r[j]) ==> j < i || Reaches(g, r[j], r[i])
  }

  /**
   * What a dependency query returns for the requested `roots`: each reachable
   * tree exactly once, every dependency before its dependent unless the two lie
   * on a common cycle, and the missing names of the listed trees in list order.
   */
  ghost predicate TreesFor(g: map<TreeId, Deps>, roots: set<TreeId>, r: Deps)
  {
    && Distinct(r.deps)
    && (forall x :: x in r.deps <==> exists root :: root in roots && Reaches(g, root, x))
    && DependencyOrder(g, r.deps)
    && r.missingNames == MissingOf(g, r.deps)
  }

  lemma ReachesRefl(g: map<TreeId, Deps>, a: TreeId)
    ensures Reaches(g, a, a)
  {
    assert IsPath(g, [a]);
  }

  lemma ReachesAppend(g: map<TreeId, Deps>, a: TreeId, b: TreeId, c: TreeId)
    requires Reaches(g, a, b) && Edge(g, b, c)
    ensures Reaches(g, a, c)
  {
    var p :| IsPath(g, p) && p[0] == a && p[|p| - 1] == b;
    var q := p + [c];
    assert IsPath(g, q);
  }

  lemma ReachesPrepend(g: map<TreeId, Deps>, a: TreeId, b: TreeId, c: TreeId)
    requires Edge(g, a, b) && Reaches(g, b, c)
    ensures Reaches(g, a, c)
  {
    var p :| IsPath(g, p) && p[0] == b && p[|p| - 1] == c;
    var q := [a] + p;
    assert IsPath(g, q);
  }

  /** A set that contains `a` and is closed under dependency edges contains all that `a` reaches. */
  lemma ClosedContainsReachable(g: map<TreeId, Deps>, s: set<TreeId>, a: TreeId, b: TreeId)
    requires a in s && Reaches(g, a, b)
    requires forall x, y :: x in s && Edge(g, x, y) ==> y in s
    ensures b in s
  {
    var p :| IsPath(g, p) && p[0] == a && p[|p| - 1] == b;
    var k := 0;
    while k < |p| - 1
      invariant 0 <= k < |p| && p[k] in s
    {
      assert Edge(g, p[k], p[k + 1]);
      k := k + 1;
    }
  }

  lemma {:induction false} MissingOfMembers(g: map<TreeId, Deps>, trees: seq<TreeId>, n: Name)
    ensures n in MissingOf(g, trees) <==> exists t :: t in trees && t in g && n in g[t].missingNames
  {
    if trees != [] {
      var init := trees[..|trees| - 1];
      MissingOfMembers(g, init, n);
      if t :| t in trees && t in g && n in g[t].missingNames {
        if t != trees[|trees| - 1] {
          assert t in init;
        }
      }
    }
  }

  /** A query's answer is closed: every dependency of a listed tree is listed. */
  lemma DependenciesListed(g: map<TreeId, Deps>, roots: set<TreeId>, r: Deps, t: TreeId, d: TreeId)
    requires TreesFor(g, roots, r)
    requires t in r.deps && Edge(g, t, d)
    ensures d in r.deps
  {
    var root :| root in roots && Reaches(g, root, t);
    ReachesAppend(g, root, t, d);
  }

  /** On an acyclic graph the order is topological: every dependency precedes its dependent. */
  lemma TopologicalWhenAcyclic(g: map<TreeId, Deps>, roots: set<TreeId>, r: Deps, i: nat, d: TreeId)
    requires TreesFor(g, roots, r) && Acyclic(g)
    requires i < |r.deps| && Edge(g, r.deps[i], d)
    ensures d in r.deps[..i]
  {
    DependenciesListed(g, roots, r, r.deps[i], d);
    var j :| 0 <= j < |r.deps| && r.deps[j] == d;
    assert r.deps[..i][j] == d;
  }

  /** Requesting a tree never pulls in the trees that depend on it, unless it depends on them too. */
  lemma DependentsNotIncluded(g: map<TreeId, Deps>, roots: set<TreeId>, r: Deps, x: TreeId)
    requires TreesFor(g, roots, r)
    requires forall root :: root in roots ==> !Reaches(g, root, x)
    ensures x !in r.deps
  {
  }

  /**
   * The state of the depth-first search between two steps: `result` lists the
   * visited trees once each in dependency order, `missing` collects their
   * missing names, and a dependency of a visited tree is visited too, or is
   * still in progress and thus leads back to it.
   */
  ghost predicate DfsState(g: map<TreeId, Deps>, visited: set<TreeId>, inProgress: set<TreeId>,
                           result: seq<TreeId>, missing: seq<Name>)
  {
    && Distinct(result)
    && (forall x :: x in result <==> x in visited)
    && visited !! inProgress
    && missing == MissingOf(g, result)
    && (forall t, d :: t in visited && Edge(g, t, d) ==> d in visited || (d in inProgress && Reaches(g, d, t)))
    && DependencyOrder(g, result)
  }

  /** Entering a tree that is neither visited nor in progress keeps the state. */
  lemma EnterVisit(g: map<TreeId, Deps>, visited: set<TreeId>, inProgress: set<TreeId>,
                   result: seq<TreeId>, missing: seq<Name>, tree: TreeId)
    requires DfsState(g, visited, inProgress, result, missing)
    requires tree !in visited
    ensures DfsState(g, visited, inProgress + {tree}, result, missing)
  {
  }

  /** Finishing `tree` once its dependencies are all visited or in progress keeps the state. */
  lemma FinishVisit(g: map<TreeId, Deps>, visited: set<TreeId>, inProgress: set<TreeId>,
                    result: seq<TreeId>, missing: seq<Name>, tree: TreeId)
    requires DfsState(g, visited, inProgress + {tree}, result, missing)
    requires tree !in visited && tree !in inProgress
    requires forall d :: Edge(g, tree, d) ==> d in visited || d in inProgress || d == tree
    requires forall p :: p in inProgress ==> Reaches(g, p, tree)
    ensures DfsState(g, visited + {tree}, inProgress, result + [tree], missing + OwnMissing(g, tree))
  {
    var r := result + [tree];
    assert r[..|result|] == result;
    forall i, j | 0 <= i < |r| && 0 <= j < |r| && Edge(g, r[i], r[j])
      ensures j < i || Reaches(g, r[j], r[i])
    {
      if j == |result| {
        if i == |result| {
          ReachesRefl(g, tree);
        } else {
          assert r[i] in visited;
        }
      }
    }
  }

  /** A finished search from `roots` that visited exactly what they reach answers the query. */
  lemma SearchComplete(g: map<TreeId, Deps>, visited: set<TreeId>, result: seq<TreeId>, missing: seq<Name>,
                       roots: set<TreeId>)
    requires DfsState(g, visited, {}, result, missing)
    requires roots <= visited
    requires forall x :: x in visited ==> exists root :: root in roots && Reaches(g, root, x)
    ensures TreesFor(g, roots, Deps(result, missing))
  {
    forall x | exists root :: root in roots && Reaches(g, root, x) ensures x in visited {
      var root :| root in roots && Reaches(g, root, x);
      ClosedContainsReachable(g, visited, root, x);
    }
  }

  /** When every dependency is tracked, the full listing holds exactly the tracked trees. */
  lemma AllTreesListed(g: map<TreeId, Deps>, r: Deps)
    requires TreesFor(g, g.Keys, r) && DepsClosed(g)
    ensures forall t :: t in r.deps <==> t in g
  {
    ListedAreTracked(g, r);
    TrackedAreListed(g, r);
  }

  lemma ListedAreTracked(g: map<TreeId, Deps>, r: Deps)
    requires TreesFor(g, g.Keys, r) && DepsClosed(g)
    ensures forall t :: t in r.deps ==> t in g
  {
    forall t | t in r.deps ensures t in g {
      var root :| root in g && Reaches(g, root, t);
      ClosedContainsReachable(g, g.Keys, root, t);
    }
  }

  lemma TrackedAreListed(g: map<TreeId, Deps>, r: Deps)
    requires TreesFor(g, g.Keys, r)
    ensures forall t :: t in g ==> t in r.deps
  {
    forall t | t in g ensures t in r.deps {
      ReachesRefl(g, t);
    }
  }

  /** The trees in progress, and `tree` itself, reach each dependency of `tree`. */
  lemma ChainReachesDep(g: map<TreeId, Deps>, inProgress: set<TreeId>, tree: TreeId, dep: TreeId)
    requires Edge(g, tree, dep)
    requires forall p :: p in inProgress ==> Reaches(g, p, tree)
    ensures forall p :: p in inProgress + {tree} ==> Reaches(g, p, dep)
  {
    forall p | p in inProgress + {tree} ensures Reaches(g, p, dep) {
      if p == tree {
        ReachesRefl(g, tree);
      }
      ReachesAppend(g, p, tree, dep);
    }
  }

  /** What the visit of a dependency adds is reachable from the dependent. */
  lemma ReachedThroughDep(g: map<TreeId, Deps>, tree: TreeId, dep: TreeId,
                          visited: set<TreeId>, before: set<TreeId>, after: set<TreeId>)
    requires Edge(g, tree, dep)
    requires forall x :: x in before && x !in visited ==> Reaches(g, tree, x)
    requires forall x :: x in after && x !in before ==> Reaches(g, dep, x)
    ensures forall x :: x in after && x !in visited ==> Reaches(g, tree, x)
  {
    forall x | x in after && x !in visited ensures Reaches(g, tree, x) {
      if x !in before {
        ReachesPrepend(g, tree, dep, x);
      }
    }
  }

  lemma CoveredStep(deps: seq<TreeId>, i: nat, before: set<TreeId>, after: set<TreeId>, inProgress: set<TreeId>)
    requires i < |deps| && before <= after
    requires forall k :: 0 <= k < i ==> deps[k] in before || deps[k] in inProgress
    requires deps[i] in after || deps[i] in inProgress
    ensures forall k :: 0 <= k < i + 1 ==> deps[k] in after || deps[k] in inProgress
  {
  }

  /** Every tree the search can ever enter. */
  function Universe(g: map<TreeId, Deps>): set<TreeId>
  {
    g.Keys + set t, d | t in g && d in g[t].deps :: d
  }

  lemma SubsetCard<T>(a: set<T>, b: set<T>)
    requires a <= b
    ensures |a| <= |b|
  {
    if a != {} {
      var x :| x in a;
      SubsetCard(a - {x}, b - {x});
    }
  }

  /** Entering a tree of the graph strictly shrinks the set of trees not yet entered. */
  lemma VisitMeasure(g: map<TreeId, Deps>, visited: set<TreeId>, visited': set<TreeId>, inProgress: set<TreeId>, tree: TreeId)
    requires visited <= visited' && tree in g && tree !in visited && tree !in inProgress
    ensures |Universe(g) - (visited' + (inProgress + {tree}))| < |Universe(g) - (visited + inProgress)|
  {
    var u := Universe(g);
    SubsetCard(u - (visited' + (inProgress + {tree})), u - (visited + inProgress) - {tree});
  }

  class DepTracker {
    /** Maps module names to the syntax tree that declares them. */
    var moduleToTree: map<Name, TreeId>
    /** Maps each syntax tree to its resolved dependencies and missing names. */
    var treeToDeps: map<TreeId, Deps>
    /** Maps each missing name to the trees that reference it. */
    var missingNames: map<Name, seq<TreeId>>

    constructor (syntaxTrees: seq<SyntaxTree>)
      ensures moduleToTree == DeclaredModules(syntaxTrees)
      ensures ResolvedFor(moduleToTree, ReferencesByTree(syntaxTrees), ReferencesByTree(syntaxTrees).Keys, treeToDeps)
      ensures MissingIndexed(moduleToTree, ReferencesByTree(syntaxTrees), ReferencesByTree(syntaxTrees).Keys, missingNames)
      ensures DepsClosed(treeToDeps)
    {
      var declared, localTreeToDeps := RecordMetadata(syntaxTrees);
      ghost var refs := localTreeToDeps;

      // Resolve dependencies and collect the missing ones, in hash order.
      var deps: map<TreeId, Deps> := map[];
      var missing: map<Name, seq<TreeId>> := map[];
      var pending := localTreeToDeps.Keys;
      while pending != {}
        invariant pending <= refs.Keys
        invariant ResolvedFor(declared, refs, refs.Keys - pending, deps)
        invariant MissingIndexed(declared, refs, refs.Keys - pending, missing)
        decreases pending
      {
        var tree :| tree in pending;
        ghost var done := refs.Keys - pending;
        var treeDeps, missing' := ResolveTree(declared, tree, localTreeToDeps[tree], missing);
        deps := deps[tree := treeDeps];
        pending := pending - {tree};
        assert refs.Keys - pending == done + {tree};
        RecordPreservesIndex(declared, refs, done, tree, missing);
        missing := missing';
      }
      moduleToTree := declared;
      treeToDeps := deps;
      missingNames := missing;
      new;
      forall a, b | Edge(treeToDeps, a, b) ensures b in treeToDeps {
        FoundTreesMembers(moduleToTree, refs[a], b);
        var n :| n in refs[a] && n in moduleToTree && moduleToTree[n] == b;
        DeclaredModulesValues(syntaxTrees, n);
      }
    }

    /**
     * Depth-first visit of `tree`: the dependencies first, then the tree itself.
     * `inProgress` is the chain of trees whose visit is under way; every one of
     * them reaches `tree`. A tree already visited or already in progress (a
     * cycle) is skipped.
     */
    method Visit(tree: TreeId, visited: set<TreeId>, inProgress: set<TreeId>, result: seq<TreeId>, missing: seq<Name>)
      returns (visited': set<TreeId>, result': seq<TreeId>, missing': seq<Name>)
      requires DfsState(treeToDeps, visited, inProgress, result, missing)
      requires forall p :: p in inProgress ==> Reaches(treeToDeps, p, tree)
      ensures DfsState(treeToDeps, visited', inProgress, result', missing')
      ensures visited <= visited' && result <= result'
      ensures tree !in inProgress ==> tree in visited'
      ensures tree in visited || tree in inProgress ==> visited' == visited && result' == result && missing' == missing
      ensures forall x :: x in visited' && x !in visited ==> Reaches(treeToDeps, tree, x)
      decreases |Universe(treeToDeps) - (visited + inProgress)|
    {
      if tree in visited || tree in inProgress {
        return visited, result, missing;
      }
      var nowInProgress := inProgress + {tree};
      visited', result', missing' := visited, result, missing;
      EnterVisit(treeToDeps, visited, inProgress, result, missing, tree);
      if tree in treeToDeps {
        var deps := treeToDeps[tree].deps;
        for i := 0 to |deps|
          invariant DfsState(treeToDeps, visited', nowInProgress, result', missing')
          invariant visited <= visited' && result <= result'
          invariant forall x :: x in visited' && x !in visited ==> Reaches(treeToDeps, tree, x)
          invariant forall k :: 0 <= k < i ==> deps[k] in visited' || deps[k] in nowInProgress
        {
          var dep := deps[i];
          assert Edge(treeToDeps, tree, dep);
          ChainReachesDep(treeToDeps, inProgress, tree, dep);
          VisitMeasure(treeToDeps, visited, visited', inProgress, tree);
          ghost var before := visited';
          visited', result', missing' := Visit(dep, visited', nowInProgress, result', missing');
          ReachedThroughDep(treeToDeps, tree, dep, visited, before, visited');
          CoveredStep(deps, i, before, visited', nowInProgress);
        }
        FinishVisit(treeToDeps, visited', inProgress, result', missing', tree);
        missing' := missing' + treeToDeps[tree].missingNames;
      } else {
        FinishVisit(treeToDeps, visited', inProgress, result', missing', tree);
      }
      visited' := visited' + {tree};
      result' := result' + [tree];
    }

    /** All trees the given trees need, transitively, in dependency order. */
    method GetTreesFor(trees: seq<TreeId>) returns (r: Deps)
      ensures TreesFor(treeToDeps, (set t | t in trees), r)
      ensures forall t :: t in trees ==> t in r.deps
    {
      var visited: set<TreeId> := {};
      var result: seq<TreeId> := [];
      var missing: seq<Name> := [];
      for i := 0 to |trees|
        invariant DfsState(treeToDeps, visited, {}, result, missing)
        invariant forall t :: t in trees[..i] ==> t in visited
        invariant forall x :: x in visited ==> exists root :: root in trees[..i] && Reaches(treeToDeps, root, x)
      {
        assert trees[..i + 1] == trees[..i] + [trees[i]];
        visited, result, missing := Visit(trees[i], visited, {}, result, missing);
      }
      assert trees[..|trees|] == trees;
      r := Deps(result, missing);
      SearchComplete(treeToDeps, visited, result, missing, set t | t in trees);
    }

    /** All trees the given module names need; names nobody declares are ignored. */
    method GetTreesForNames(symbols: seq<Name>) returns (r: Deps)
      ensures TreesFor(treeToDeps, (set n | n in symbols && n in moduleToTree :: moduleToTree[n]), r)
    {
      var trees: seq<TreeId> := [];
      for i := 0 to |symbols|
        invariant trees == FoundTrees(moduleToTree, symbols[..i])
      {
        assert symbols[..i + 1] == symbols[..i] + [symbols[i]];
        if symbols[i] in moduleToTree {
          trees := trees + [moduleToTree[symbols[i]]];
        }
      }
      assert symbols[..|symbols|] == symbols;
      r := GetTreesFor(trees);
      FoundTreesSet(moduleToTree, symbols);
    }

    /** Every tracked tree in dependency order. */
    method GetAllSorted() returns (r: Deps)
      ensures TreesFor(treeToDeps, treeToDeps.Keys, r)
      ensures DepsClosed(treeToDeps) ==> forall t :: t in r.deps <==> t in treeToDeps
    {
      var allTrees := SetToSeq(treeToDeps.Keys);
      ElementsOf(allTrees, treeToDeps.Keys);
      r := GetTreesFor(allTrees);
      if DepsClosed(treeToDeps) {
        AllTreesListed(treeToDeps, r);
      }
    }
  }
}
