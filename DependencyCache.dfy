/**
 * The dependency cache of a JVM compile task: it fills its indexes from the
 * compiler's and the jar resolver's products, resolves each target's
 * referenced classes to the targets and jar dependencies that provide them
 * (once, then from its cache), explains an inferred edge, and checks the
 * inferred edges against the declared ones.
 */
module DependencyCache {
  import opened BuildGraph
  import opened MultiMap
  import opened DependencyIndex
  import opened DependencyCheck

  datatype Option<T> = None | Some(value: T)

  /** The part of the compile task the cache touches: the `_computed_jar_products` latch. */
  class CompileTask {
    var computedJarProducts: bool

    /** `init_product_requirements`: the latch starts open (the product requirements themselves are registry plumbing). */
    constructor InitProductRequirements()
      ensures !computedJarProducts
    {
      computedJarProducts := false;
    }

    /** `_requires_jardeps`: says yes for the first JVM target asked about, and closes the latch. */
    method RequiresJardeps(k: Kind) returns (r: bool)
      modifies this
      ensures r == (!old(computedJarProducts) && k.JvmTarget?)
      ensures computedJarProducts == (old(computedJarProducts) || r)
    {
      if !computedJarProducts && k.JvmTarget? {
        computedJarProducts := true;
        r := true;
      } else {
        r := false;
      }
    }

    /**
     * The product registry asking `_requires_jardeps` about targets of kinds
     * `ks`, one after another: the answers are `LatchAnswers`, and the latch
     * ends closed exactly when it started closed or some answer was yes.
     */
    method RequiresJardepsEach(ks: seq<Kind>) returns (answers: seq<bool>)
      modifies this
      ensures answers == LatchAnswers(old(computedJarProducts), ks)
      ensures computedJarProducts <==> old(computedJarProducts) || true in answers
    {
      answers := [];
      for i := 0 to |ks|
        invariant answers + LatchAnswers(computedJarProducts, ks[i..]) == LatchAnswers(old(computedJarProducts), ks)
        invariant computedJarProducts <==> old(computedJarProducts) || true in answers
      {
        ghost var latched := computedJarProducts;
        assert ks[i..][1..] == ks[i + 1..];
        var r := RequiresJardeps(ks[i]);
        assert LatchAnswers(latched, ks[i..]) == [r] + LatchAnswers(computedJarProducts, ks[i + 1..]);
        answers := answers + [r];
      }
    }
  }

  /** The answers that successive `_requires_jardeps` calls give for targets of kinds `ks`, from latch state `latched`. */
  function LatchAnswers(latched: bool, ks: seq<Kind>): (r: seq<bool>)
    ensures |r| == |ks|
    decreases |ks|
  {
    if ks == [] then []
    else
      var yes := !latched && ks[0].JvmTarget?;
      [yes] + LatchAnswers(latched || yes, ks[1..])
  }

  /** A call says yes exactly when the latch is open and it is the first JVM target asked about. */
  lemma {:induction false} LatchAnswersFirstJvm(latched: bool, ks: seq<Kind>, i: nat)
    requires i < |ks|
    ensures LatchAnswers(latched, ks)[i]
        <==> !latched && ks[i].JvmTarget? && forall j :: 0 <= j < i ==> !ks[j].JvmTarget?
    decreases i
  {
    if i > 0 {
      var yes := !latched && ks[0].JvmTarget?;
      LatchAnswersFirstJvm(latched || yes, ks[1..], i - 1);
      assert forall j :: 0 < j < i ==> ks[1..][j - 1] == ks[j];
      if !latched && ks[i].JvmTarget? && !yes && forall j :: 0 <= j < i - 1 ==> !ks[1..][j].JvmTarget? {
        forall j | 0 <= j < i ensures !ks[j].JvmTarget? {
          if j > 0 {
            assert ks[1..][j - 1] == ks[j];
          }
        }
      }
    }
  }

  /** The compile task asks for jar products at most once. */
  lemma AtMostOneJardepsRequest(ks: seq<Kind>, i: nat, j: nat)
    requires i < j < |ks|
    ensures !(LatchAnswers(false, ks)[i] && LatchAnswers(false, ks)[j])
  {
    LatchAnswersFirstJvm(false, ks, i);
    LatchAnswersFirstJvm(false, ks, j);
  }

  class JvmDependencyCache {
    // The task's option settings.
    const checkMissingDeps: bool
    const checkIntransitiveDeps: Severity
    const checkUnnecessaryDeps: bool

    // The targets to analyze, and what the task context supplies.
    const targets: seq<Target>
    const graph: Graph
    const classProducts: ClassProducts
    const jarProducts: JarProducts
    const classRefs: ClassRefs
    const jarEntries: JarEntries

    var classDepsByTarget: map<Target, set<ClassName>>
    var targetsByClass: map<ClassName, set<Target>>
    var depsBySource: map<Source, set<ClassName>>
    var jarsByTarget: map<Target, set<JarPath>>
    var jarTargetsByClass: map<ClassName, set<Target>>

    /** `computed_deps` and `computed_jar_deps`: None until the first computation, then the cached pair. */
    var computed: Option<Computed>

    /** The source-side indexes hold what `_compute_source_deps` computes from the class products. */
    ghost predicate SourcesIndexed()
      reads this
    {
      && targetsByClass == TargetsByClass(targets, classProducts)
      && depsBySource == DepsBySource(targets, classProducts, graph, classRefs)
      && classDepsByTarget == ClassDepsByTarget(targets, classProducts, graph, classRefs)
    }

    /** The jar-side indexes hold what `_compute_jar_contents` computes from the jar products. */
    ghost predicate JarsIndexedHere()
      reads this
    {
      && JarsIndexed(jarsByTarget, graph, FoundJarDeps(graph, targets), jarProducts)
      && jarTargetsByClass == JarTargetsByClass(jarsByTarget, jarEntries)
    }

    /**
     * Before the first computation every index is empty; afterwards every
     * index is filled and the cache holds the resolution of the indexes.
     */
    ghost predicate Valid()
      reads this
    {
      && WellFormed(graph)
      && (computed.None? ==>
            && classDepsByTarget == map[] && targetsByClass == map[] && depsBySource == map[]
            && jarsByTarget == map[] && jarTargetsByClass == map[])
      && (computed.Some? ==>
            && SourcesIndexed()
            && JarsIndexedHere()
            && computed.value == Resolve(classDepsByTarget, targetsByClass, jarTargetsByClass))
    }

    constructor (checkMissingDeps: bool, checkIntransitiveDeps: Severity, checkUnnecessaryDeps: bool,
                 targets: seq<Target>, graph: Graph, classProducts: ClassProducts, jarProducts: JarProducts,
                 classRefs: ClassRefs, jarEntries: JarEntries)
      requires WellFormed(graph)
      ensures Valid() && computed.None?
      ensures this.checkMissingDeps == checkMissingDeps && this.checkIntransitiveDeps == checkIntransitiveDeps
      ensures this.checkUnnecessaryDeps == checkUnnecessaryDeps
      ensures this.targets == targets && this.graph == graph && this.classProducts == classProducts
      ensures this.jarProducts == jarProducts && this.classRefs == classRefs && this.jarEntries == jarEntries
    {
      this.checkMissingDeps := checkMissingDeps;
      this.checkIntransitiveDeps := checkIntransitiveDeps;
      this.checkUnnecessaryDeps := checkUnnecessaryDeps;
      this.targets := targets;
      this.graph := graph;
      this.classProducts := classProducts;
      this.jarProducts := jarProducts;
      this.classRefs := classRefs;
      this.jarEntries := jarEntries;
      classDepsByTarget := map[];
      targetsByClass := map[];
      depsBySource := map[];
      jarsByTarget := map[];
      jarTargetsByClass := map[];
      computed := None;
    }

    /**
     * `_walk_jardeps`: the walk callback appends `node` when it is a jar
     * dependency and a JVM target's listed jar dependencies; it only appends.
     */
    method WalkJardeps(node: Target, result: seq<Target>) returns (result': seq<Target>)
      ensures |result| <= |result'| && result'[..|result|] == result
      ensures Elems(result') == Elems(result) + JardepsReached(graph, {node})
    {
      result' := result;
      if graph(node).kind.JarDependency? {
        result' := result' + [node];
      }
      if graph(node).kind.JvmTarget? {
        result' := result' + graph(node).jarDependencies;
      }
    }

    /** `_get_jardep_dependencies`: the jar dependencies collected over the target's walk. */
    method GetJardepDependencies(t: Target) returns (jars: set<Target>)
      ensures jars == JardepsReached(graph, graph(t).walk)
    {
      var result: seq<Target> := [];
      var todo := graph(t).walk;
      while todo != {}
        invariant todo <= graph(t).walk
        invariant Elems(result) == JardepsReached(graph, graph(t).walk - todo)
        decreases todo
      {
        var node :| node in todo;
        JardepsReachedUnion(graph, graph(t).walk - todo, node);
        result := WalkJardeps(node, result);
        assert graph(t).walk - (todo - {node}) == (graph(t).walk - todo) + {node};
        todo := todo - {node};
      }
      assert graph(t).walk - todo == graph(t).walk;
      jars := Elems(result);
    }

    /** The first loop of `_compute_jar_contents`: the jar dependencies reached from any target, all of them jar-dependency nodes. */
    method FindJarDependencies() returns (found: set<Target>)
      requires WellFormed(graph)
      ensures found == FoundJarDeps(graph, targets)
      ensures forall jd :: jd in found ==> graph(jd).kind.JarDependency?
    {
      found := {};
      for i := 0 to |targets|
        invariant found == FoundJarDeps(graph, targets[..i])
      {
        var jars := GetJardepDependencies(targets[i]);
        assert targets[..i + 1] == targets[..i] + [targets[i]];
        found := found + jars;
      }
      assert targets[..|targets|] == targets;
      forall jd | jd in found ensures graph(jd).kind.JarDependency? {
        var t :| t in targets && jd in JardepsReached(graph, graph(t).walk);
        JardepsReachedAreJars(graph, graph(t).walk);
      }
    }

    /**
     * `_compute_jar_contents`: collect the jar dependencies reached from the
     * targets, key them by coordinate, take the jars of each product key that
     * is one of those coordinates, and index the `.class` entries of the jars.
     */
    method ComputeJarContents()
      requires WellFormed(graph)
      requires jarsByTarget == map[] && jarTargetsByClass == map[]
      modifies this
      ensures JarsIndexedHere()
      ensures classDepsByTarget == old(classDepsByTarget) && targetsByClass == old(targetsByClass)
      ensures depsBySource == old(depsBySource) && computed == old(computed)
    {
      var found := FindJarDependencies();
      var jardepsById := JardepsById(graph, found);
      jarsByTarget := IndexJarProducts(jarProducts, jardepsById, graph, found);
      jarTargetsByClass := IndexJarContents(jarsByTarget, jarEntries);
    }

    /**
     * `_compute_source_deps`: for each target with class products, file it
     * under every class it produced; then, for each of its sources, record
     * the classes the source depends on and add them to the target's.
     */
    method ComputeSourceDeps()
      requires classDepsByTarget == map[] && targetsByClass == map[] && depsBySource == map[]
      modifies this
      ensures SourcesIndexed()
      ensures jarsByTarget == old(jarsByTarget) && jarTargetsByClass == old(jarTargetsByClass) && computed == old(computed)
    {
      var tbc, dbs, cd := targetsByClass, depsBySource, classDepsByTarget;
      InvertEmpty(ClassesByTarget(targets[..0], classProducts));
      for i := 0 to |targets|
        invariant tbc == TargetsByClass(targets[..i], classProducts)
        invariant dbs == DepsBySource(targets[..i], classProducts, graph, classRefs)
        invariant cd == ClassDepsByTarget(targets[..i], classProducts, graph, classRefs)
        invariant unchanged(this)
      {
        var target := targets[i];
        assert targets[..i + 1] == targets[..i] + [target];
        if target !in classProducts.byTarget {
          // A target without products produced nothing: it is skipped.
          AbsentTargetAddsNothing(targets[..i], classProducts, graph, classRefs, target);
        } else {
          TargetsByClassStep(targets[..i], target, classProducts);
          DepsBySourceStep(targets[..i], target, classProducts, graph, classRefs);
          ClassDepsByTargetStep(targets[..i], target, classProducts, graph, classRefs);
          tbc := IndexProducedClasses(tbc, classProducts.byTarget[target], target);
          ghost var cd0 := cd;
          dbs, cd := IndexSources(dbs, cd, classProducts, classRefs, target, graph(target).sources);
          if graph(target).sources != [] {
            assert Get(cd0, target) + ClassDepsOf(classProducts, classRefs, graph(target).sources)
                == ClassDepsOf(classProducts, classRefs, graph(target).sources);
          }
        }
      }
      assert targets[..|targets|] == targets;
      targetsByClass, depsBySource, classDepsByTarget := tbc, dbs, cd;
    }

    /**
     * `get_compilation_dependencies`: the cached pair when there is one;
     * otherwise fill the indexes, resolve every target's referenced classes
     * and cache the result.
     */
    method GetCompilationDependencies() returns (deps: map<Target, set<Target>>, jarDeps: map<Target, set<Target>>)
      requires Valid()
      modifies this
      ensures Valid() && computed == Some(Computed(deps, jarDeps))
      ensures SourcesIndexed() && JarsIndexedHere()
      ensures Computed(deps, jarDeps) == Resolve(classDepsByTarget, targetsByClass, jarTargetsByClass)
      ensures old(computed).Some? ==> computed == old(computed) && unchanged(this)
    {
      if computed.Some? {
        return computed.value.deps, computed.value.jarDeps;
      }
      ComputeSourceDeps();
      ComputeJarContents();
      var c := ResolveAll(classDepsByTarget, targetsByClass, jarTargetsByClass);
      computed := Some(c);
      deps, jarDeps := c.deps, c.jarDeps;
    }

    /**
     * `get_dependency_blame`: scan `from`'s sources in order and, within a
     * source, its referenced classes in any order, for a class that `to`
     * produced; `None` stands for the `(None, None)` pair.
     */
    method GetDependencyBlame(from: Target, to: Target) returns (r: Option<(Source, ClassName)>)
      ensures r.None? <==> forall i :: 0 <= i < |graph(from).sources| ==> !Blames(depsBySource, targetsByClass, graph(from).sources[i], to)
      ensures r.Some? ==> Justifies(depsBySource, targetsByClass, r.value.0, r.value.1, to)
      ensures r.Some? ==> exists i :: FirstBlaming(depsBySource, targetsByClass, graph(from).sources, i, to) && graph(from).sources[i] == r.value.0
    {
      var sources := graph(from).sources;
      for i := 0 to |sources|
        invariant forall j :: 0 <= j < i ==> !Blames(depsBySource, targetsByClass, sources[j], to)
      {
        var source := sources[i];
        var classes := Get(depsBySource, source);
        var todo := classes;
        while todo != {}
          invariant todo <= classes
          invariant forall cl :: cl in classes - todo ==> !Justifies(depsBySource, targetsByClass, source, cl, to)
          decreases todo
        {
          var cl :| cl in todo;
          if cl in targetsByClass && to in targetsByClass[cl] {
            assert Justifies(depsBySource, targetsByClass, source, cl, to);
            assert FirstBlaming(depsBySource, targetsByClass, sources, i, to);
            return Some((source, cl));
          }
          todo := todo - {cl};
        }
      }
      return None;
    }

    /**
     * `_dependency_walk_work`: the walk callback drops the visited node from
     * the undeclared targets and, for a JVM target, its dependencies from the
     * undeclared jar dependencies; it only ever removes.
     */
    method DependencyWalkWork(deps: set<Target>, jarDeps: set<Target>, node: Target) returns (deps': set<Target>, jarDeps': set<Target>)
      ensures deps' == deps - {node}
      ensures jarDeps' == if graph(node).kind.JvmTarget? then jarDeps - graph(node).dependencies else jarDeps
    {
      deps', jarDeps' := deps, jarDeps;
      if node in deps' {
        deps' := deps' - {node};
      }
      if graph(node).kind.JvmTarget? {
        var todo := graph(node).dependencies;
        while todo != {}
          invariant todo <= graph(node).dependencies
          invariant jarDeps' == jarDeps - (graph(node).dependencies - todo)
          decreases todo
        {
          var jarDep :| jarDep in todo;
          if jarDep in jarDeps' {
            jarDeps' := jarDeps' - {jarDep};
          }
          todo := todo - {jarDep};
        }
      }
    }

    /** `target.walk(...)` with `_dependency_walk_work` over copies of the computed sets. */
    method WalkUndeclared(t: Target, deps: set<Target>, jarDeps: set<Target>) returns (undeclared: set<Target>, undeclaredJar: set<Target>)
      ensures undeclared == deps - graph(t).walk
      ensures undeclaredJar == jarDeps - DeclaredOnWalk(graph, graph(t).walk)
    {
      undeclared, undeclaredJar := deps, jarDeps;
      var todo := graph(t).walk;
      while todo != {}
        invariant todo <= graph(t).walk
        invariant undeclared == deps - (graph(t).walk - todo)
        invariant undeclaredJar == jarDeps - DeclaredOnWalk(graph, graph(t).walk - todo)
        decreases todo
      {
        var node :| node in todo;
        ghost var done := graph(t).walk - todo;
        undeclared, undeclaredJar := DependencyWalkWork(undeclared, undeclaredJar, node);
        assert DeclaredOnWalk(graph, done + {node})
            == DeclaredOnWalk(graph, done) + if graph(node).kind.JvmTarget? then graph(node).dependencies else {};
        assert graph(t).walk - (todo - {node}) == done + {node};
        todo := todo - {node};
      }
      assert graph(t).walk - todo == graph(t).walk;
    }

    /** Some source of `t` references a class that `d` produced. */
    ghost predicate Blamable(t: Target, d: Target)
      reads this
    {
      exists i :: 0 <= i < |graph(t).sources| && Blames(depsBySource, targetsByClass, graph(t).sources[i], d)
    }

    /** Every cached dependency of a target is blamed on one of that target's sources. */
    lemma ComputedDepsBlamable()
      requires Valid() && computed.Some?
      ensures forall t, d :: t in computed.value.deps && d in computed.value.deps[t] ==> Blamable(t, d)
    {
      forall t, d | t in computed.value.deps && d in computed.value.deps[t]
        ensures Blamable(t, d)
      {
        ComputedDepIsBlamable(targets, classProducts, graph, classRefs, jarTargetsByClass, t, d);
      }
    }

    /**
     * `blames` holds what `get_dependency_blame` answers for each dependency
     * in `undeclared`: the first source of `t` that blames it, with a class
     * that justifies it, or `None` when no source of `t` does.
     */
    ghost predicate Explains(t: Target, undeclared: set<Target>, blames: map<Target, Option<(Source, ClassName)>>)
      reads this
    {
      && blames.Keys == undeclared
      && forall d :: d in blames ==>
           if blames[d].Some? then
             && blames[d].value.0 in graph(t).sources
             && Justifies(depsBySource, targetsByClass, blames[d].value.0, blames[d].value.1, d)
             && exists i :: FirstBlaming(depsBySource, targetsByClass, graph(t).sources, i, d) && graph(t).sources[i] == blames[d].value.0
           else !Blamable(t, d)
    }

    /**
     * The loop over one target's undeclared dependencies: blame each on a
     * source and class, and discard it from the immediate missing dependencies.
     */
    method BlameUndeclared(target: Target, undeclared: set<Target>, immediate: set<Target>)
      returns (immediate': set<Target>, blames: map<Target, Option<(Source, ClassName)>>)
      ensures immediate' == immediate - undeclared
      ensures Explains(target, undeclared, blames)
    {
      immediate', blames := immediate, map[];
      var rest := undeclared;
      while rest != {}
        invariant rest <= undeclared
        invariant immediate' == immediate - (undeclared - rest)
        invariant Explains(target, undeclared - rest, blames)
        decreases rest
      {
        var depTarget :| depTarget in rest;
        var culprit := GetDependencyBlame(target, depTarget);
        blames := blames[depTarget := culprit];
        immediate' := immediate' - {depTarget};
        assert undeclared - (rest - {depTarget}) == (undeclared - rest) + {depTarget};
        rest := rest - {depTarget};
      }
      assert undeclared - rest == undeclared;
    }

    /**
     * One target's turn of the check loop: the undeclared dependencies left
     * after the walk, each blamed and discarded from the immediate missing
     * dependencies; then the intransitive and unnecessary checks. `missing`
     * is whether the turn sets `found_missing_deps`.
     */
    method CheckTarget(target: Target, computedDeps: set<Target>, computedJarDeps: set<Target>)
      returns (findings: Findings, missing: bool, blames: map<Target, Option<(Source, ClassName)>>)
      ensures findings == FindingsFor(graph, target, computedDeps, computedJarDeps, checkIntransitiveDeps, checkUnnecessaryDeps)
      ensures missing == Fails(findings, checkIntransitiveDeps)
      ensures Explains(target, findings.undeclared, blames)
    {
      var undeclaredDeps, undeclaredJarDeps := WalkUndeclared(target, computedDeps, computedJarDeps);
      var immediateMissingDeps := computedDeps - graph(target).dependencies - {target};
      missing := false;
      blames := map[];
      if undeclaredDeps != {} {
        missing := true;
        immediateMissingDeps, blames := BlameUndeclared(target, undeclaredDeps, immediateMissingDeps);
      }
      var intransitive := {};
      if checkIntransitiveDeps != Ignore {
        if immediateMissingDeps != {} {
          if checkIntransitiveDeps == Error {
            missing := true;
          }
          intransitive := immediateMissingDeps;
        }
      }
      var overDeps := if checkUnnecessaryDeps then graph(target).declaredDependencies - computedDeps else {};
      findings := Findings(undeclaredDeps, undeclaredJarDeps, intransitive, overDeps);
    }

    /** The findings for each target of `ts`, from its cached dependencies. */
    function Report(deps: map<Target, set<Target>>, jarDeps: map<Target, set<Target>>, ts: set<Target>): map<Target, Findings>
      reads this
      requires ts <= deps.Keys
    {
      map t | t in ts :: FindingsFor(graph, t, deps[t], Get(jarDeps, t), checkIntransitiveDeps, checkUnnecessaryDeps)
    }

    lemma ReportStep(deps: map<Target, set<Target>>, jarDeps: map<Target, set<Target>>, ts: set<Target>, t: Target)
      requires ts <= deps.Keys && t in deps
      ensures Report(deps, jarDeps, ts + {t})
           == Report(deps, jarDeps, ts)[t := FindingsFor(graph, t, deps[t], Get(jarDeps, t), checkIntransitiveDeps, checkUnnecessaryDeps)]
    {
      var a := Report(deps, jarDeps, ts + {t});
      var b := Report(deps, jarDeps, ts)[t := FindingsFor(graph, t, deps[t], Get(jarDeps, t), checkIntransitiveDeps, checkUnnecessaryDeps)];
      assert a.Keys == b.Keys;
    }

    /** Every reported target's undeclared dependencies are explained by its blame map. */
    ghost predicate ExplainsAll(report: map<Target, Findings>, blame: map<Target, map<Target, Option<(Source, ClassName)>>>)
      reads this
    {
      blame.Keys == report.Keys && forall t :: t in report ==> Explains(t, report[t].undeclared, blame[t])
    }

    lemma ExplainsAllStep(report: map<Target, Findings>, blame: map<Target, map<Target, Option<(Source, ClassName)>>>,
                          t: Target, f: Findings, b: map<Target, Option<(Source, ClassName)>>)
      requires ExplainsAll(report, blame) && Explains(t, f.undeclared, b)
      ensures ExplainsAll(report[t := f], blame[t := b])
    {
      var report', blame' := report[t := f], blame[t := b];
      forall u | u in report' ensures Explains(u, report'[u].undeclared, blame'[u]) {
        if u != t {
          assert report'[u] == report[u] && blame'[u] == blame[u];
        }
      }
    }

    /** The loop of `check_undeclared_dependencies` over the computed dependencies, once they are cached. */
    method CheckTargets(deps: map<Target, set<Target>>, jarDeps: map<Target, set<Target>>)
      returns (foundMissingDeps: bool, report: map<Target, Findings>, blame: map<Target, map<Target, Option<(Source, ClassName)>>>)
      ensures report.Keys == deps.Keys && blame.Keys == deps.Keys
      ensures forall t :: t in report ==>
        report[t] == FindingsFor(graph, t, deps[t], Get(jarDeps, t), checkIntransitiveDeps, checkUnnecessaryDeps)
      ensures foundMissingDeps <==> exists t :: t in report && Fails(report[t], checkIntransitiveDeps)
      ensures forall t :: t in report ==> Explains(t, report[t].undeclared, blame[t])
    {
      foundMissingDeps, report, blame := false, map[], map[];
      var todo := deps.Keys;
      while todo != {}
        invariant todo <= deps.Keys
        invariant report == Report(deps, jarDeps, deps.Keys - todo)
        invariant foundMissingDeps <==> exists t :: t in report && Fails(report[t], checkIntransitiveDeps)
        invariant ExplainsAll(report, blame)
        decreases todo
      {
        var target :| target in todo;
        ghost var report0, found0 := report, foundMissingDeps;
        ReportStep(deps, jarDeps, deps.Keys - todo, target);
        var findings, missing, blames := CheckTarget(target, deps[target], Get(jarDeps, target));
        ExplainsAllStep(report, blame, target, findings, blames);
        report := report[target := findings];
        blame := blame[target := blames];
        foundMissingDeps := foundMissingDeps || missing;
        if found0 {
          var w :| w in report0 && Fails(report0[w], checkIntransitiveDeps);
          assert w in report && Fails(report[w], checkIntransitiveDeps);
        } else if missing {
          assert target in report && Fails(report[target], checkIntransitiveDeps);
        }
        assert deps.Keys - (todo - {target}) == (deps.Keys - todo) + {target};
        assert report == Report(deps, jarDeps, deps.Keys - (todo - {target}));
        todo := todo - {target};
      }
      assert deps.Keys - todo == deps.Keys;
      assert report.Keys == deps.Keys;
    }

    /**
     * `check_undeclared_dependencies`, with the intransitive "error" branch
     * recording its products through the task's context: nothing when the
     * check is off; otherwise every target with computed target dependencies
     * is examined, and the run fails exactly when one of them fails. Every
     * undeclared dependency carries its blame.
     */
    method CheckUndeclaredDependencies()
      returns (outcome: Outcome, report: map<Target, Findings>, blame: map<Target, map<Target, Option<(Source, ClassName)>>>)
      requires Valid()
      modifies this
      ensures Valid()
      ensures old(computed).Some? ==> computed == old(computed) && unchanged(this)
      ensures !checkMissingDeps ==> outcome == Passed && report == map[] && unchanged(this)
      ensures checkMissingDeps ==> computed.Some? && report.Keys == computed.value.deps.Keys
      ensures forall t :: t in report ==>
        report[t] == FindingsFor(graph, t, computed.value.deps[t], Get(computed.value.jarDeps, t), checkIntransitiveDeps, checkUnnecessaryDeps)
      ensures outcome == MissingDependencies <==> exists t :: t in report && Fails(report[t], checkIntransitiveDeps)
      ensures forall t :: t in report ==> t in blame && Explains(t, report[t].undeclared, blame[t])
      ensures forall t, d :: t in blame && d in blame[t] ==> blame[t][d].Some?
    {
      outcome, report, blame := Passed, map[], map[];
      if !checkMissingDeps {
        return;
      }
      var depsByTarget, jarDepsByTarget := GetCompilationDependencies();
      var foundMissingDeps;
      foundMissingDeps, report, blame := CheckTargets(depsByTarget, jarDepsByTarget);
      if foundMissingDeps {
        outcome := MissingDependencies;
      }
      ComputedDepsBlamable();
      forall t, d | t in blame && d in blame[t] ensures blame[t][d].Some? {
        assert d in depsByTarget[t];
        assert Blamable(t, d);
      }
    }
  }
}
