/**
 * What the undeclared-dependency check finds about one target, when a run
 * fails, and how the check loop ends as written in the source.
 */
module DependencyCheck {
  import opened BuildGraph

  /** The `--check-missing-intransitive-deps` setting: "none", "warn" or "error". */
  datatype Severity = Ignore | Warn | Error

  /** The outcome of a check: success, or the `TaskError('Missing dependencies detected.')`. */
  datatype Outcome = Passed | MissingDependencies

  /** What the check finds about one target. */
  datatype Findings = Findings(
    undeclared: set<Target>,
    undeclaredJar: set<Target>,
    intransitive: set<Target>,
    unnecessary: set<Target>)

  /** The nodes that some JVM target on `walk` lists among its dependencies. */
  function DeclaredOnWalk(g: Graph, walk: set<Target>): set<Target>
  {
    set n, d | n in walk && g(n).kind.JvmTarget? && d in g(n).dependencies :: d
  }

  /**
   * The findings for target `t` whose computed target and jar dependencies
   * are `deps` and `jarDeps`:
   *  - undeclared: computed dependencies the declared walk does not reach;
   *  - undeclaredJar: computed jar dependencies no JVM target on the walk
   *    lists (computed, never acted on);
   *  - intransitive: computed dependencies that are neither direct
   *    dependencies, nor `t`, nor undeclared, unless the intransitive
   *    check is "none";
   *  - unnecessary: declared dependencies never computed, when that check is on.
   */
  function FindingsFor(g: Graph, t: Target, deps: set<Target>, jarDeps: set<Target>, mode: Severity, checkUnnecessary: bool): Findings
  {
    var undeclared := deps - g(t).walk;
    Findings(
      undeclared,
      jarDeps - DeclaredOnWalk(g, g(t).walk),
      if mode == Ignore then {} else deps - g(t).dependencies - {t} - undeclared,
      if checkUnnecessary then g(t).declaredDependencies - deps else {})
  }

  /**
   * What the findings mean: a computed dependency is undeclared exactly when
   * the walk misses it, and intransitive exactly when the intransitive check
   * is on and the walk reaches it but the target does not list it; the two
   * never overlap, the target itself is neither, and an unnecessary
   * dependency is never a computed one.
   */
  lemma FindingsMeaning(g: Graph, t: Target, deps: set<Target>, jarDeps: set<Target>, mode: Severity, checkUnnecessary: bool, d: Target)
    requires WellFormed(g)
    ensures var f := FindingsFor(g, t, deps, jarDeps, mode, checkUnnecessary);
      && t !in f.undeclared && t !in f.intransitive
      && (d in f.undeclared <==> d in deps && d !in g(t).walk)
      && (d in f.intransitive <==> mode != Ignore && d in deps && d in g(t).walk && d !in g(t).dependencies && d != t)
      && !(d in f.undeclared && d in f.intransitive)
      && (d in f.unnecessary ==> d !in deps)
      && (!checkUnnecessary ==> f.unnecessary == {})
  {
    assert t in g(t).walk;
  }

  /** A target makes the run fail when it has undeclared dependencies, or intransitive ones in "error" mode. */
  predicate Fails(f: Findings, mode: Severity)
  {
    f.undeclared != {} || (mode == Error && f.intransitive != {})
  }

  /**
   * A dependency declared directly is never reported, neither as undeclared
   * nor as intransitive.
   */
  lemma DirectDependencyAccepted(g: Graph, t: Target, d: Target, deps: set<Target>, jarDeps: set<Target>, mode: Severity, checkUnnecessary: bool)
    requires WellFormed(g)
    requires d in g(t).dependencies
    ensures d !in FindingsFor(g, t, deps, jarDeps, mode, checkUnnecessary).undeclared
    ensures d !in FindingsFor(g, t, deps, jarDeps, mode, checkUnnecessary).intransitive
  {
    assert d in g(d).walk;
  }

  /**
   * Transitive suppression: when `a` declares `b` and `b` declares `c`, a
   * computed dependency of `a` on `c` is not undeclared, and it is reported
   * as intransitive exactly when the intransitive check is on.
   */
  lemma TransitiveSuppression(g: Graph, a: Target, b: Target, c: Target, deps: set<Target>, jarDeps: set<Target>, mode: Severity, checkUnnecessary: bool)
    requires WellFormed(g)
    requires b in g(a).dependencies && c in g(b).dependencies
    requires c !in g(a).dependencies && c != a && c in deps
    ensures c !in FindingsFor(g, a, deps, jarDeps, mode, checkUnnecessary).undeclared
    ensures c in FindingsFor(g, a, deps, jarDeps, mode, checkUnnecessary).intransitive <==> mode != Ignore
  {
    assert c in g(c).walk;
    assert g(c).walk <= g(b).walk <= g(a).walk;
  }

  /** A "warn" setting, and any number of unnecessary dependencies, never make a target fail by themselves. */
  lemma WarningsNeverFail(f: Findings)
    ensures Fails(f, Warn) <==> Fails(f, Ignore)
    ensures Fails(f, Warn) <==> Fails(f.(unnecessary := {}, intransitive := {}), Error)
  {
  }

  // ---------------------------------------------------------------------------
  // The check loop as written

  /** How the check loop ends as written: every target examined, or a fault in the "error" intransitive branch. */
  datatype AsWrittenEnd = Finished(failed: bool) | Faulted(at: Target)

  /**
   * The check loop as the source writes it, over the targets in dictionary
   * order. In "error" mode a target with intransitive dependencies sets the
   * failure flag and then looks up `self.context`, an attribute the cache
   * does not have: the loop stops there with an attribute error.
   */
  function AsWrittenCheck(order: seq<Target>, report: map<Target, Findings>, mode: Severity, failed: bool): (r: AsWrittenEnd)
    requires forall t :: t in order ==> t in report
    ensures r.Faulted? ==> mode == Error && r.at in order && report[r.at].intransitive != {}
    ensures r.Finished? ==> (r.failed <==> failed || exists j :: 0 <= j < |order| && report[order[j]].undeclared != {})
    decreases |order|
  {
    if order == [] then Finished(failed)
    else
      var f := report[order[0]];
      if mode == Error && f.intransitive != {} then Faulted(order[0])
      else AsWrittenCheck(order[1..], report, mode, failed || f.undeclared != {})
  }

  /**
   * As written, "error" mode never reaches the `TaskError`: the first target
   * with intransitive dependencies ends the loop with a fault, and the
   * targets after it are never examined.
   */
  lemma {:induction false} AsWrittenFaultsAtFirstIntransitive(order: seq<Target>, report: map<Target, Findings>, failed: bool, k: nat)
    requires forall t :: t in order ==> t in report
    requires k < |order| && report[order[k]].intransitive != {}
    requires forall j :: 0 <= j < k ==> report[order[j]].intransitive == {}
    ensures AsWrittenCheck(order, report, Error, failed) == Faulted(order[k])
  {
    if k > 0 {
      AsWrittenFaultsAtFirstIntransitive(order[1..], report, failed || report[order[0]].undeclared != {}, k - 1);
    }
  }

  /** When no target reaches the faulting branch, the loop as written fails exactly when some target fails. */
  lemma {:induction false} AsWrittenOtherwiseAgrees(order: seq<Target>, report: map<Target, Findings>, mode: Severity, failed: bool)
    requires forall t :: t in order ==> t in report
    requires forall j :: 0 <= j < |order| ==> !(mode == Error && report[order[j]].intransitive != {})
    ensures AsWrittenCheck(order, report, mode, failed)
         == Finished(failed || exists j :: 0 <= j < |order| && Fails(report[order[j]], mode))
  {
    if order != [] {
      var rest := order[1..];
      AsWrittenOtherwiseAgrees(rest, report, mode, failed || report[order[0]].undeclared != {});
      if exists j :: 0 <= j < |order| && Fails(report[order[j]], mode) {
        var j :| 0 <= j < |order| && Fails(report[order[j]], mode);
        if j > 0 {
          assert rest[j - 1] == order[j];
        }
      }
      if exists j :: 0 <= j < |rest| && Fails(report[rest[j]], mode) {
        var j :| 0 <= j < |rest| && Fails(report[rest[j]], mode);
        assert order[j + 1] == rest[j];
      }
    }
  }
}
