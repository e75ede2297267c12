/**
 * The indexes the dependency cache builds from the compiler's and the jar
 * resolver's products, each defined as a value of the inputs, together with
 * the loop bodies that fill them and what is proved about them.
 */
module DependencyIndex {
  import opened BuildGraph
  import opened MultiMap

  /** A class-file name such as `com/foo/Bar.class`. */
  type ClassName = string

  /** An output directory. */
  type Dir = string

  const ClassSuffix: string := ".class"

  predicate EndsWith(s: string, suffix: string)
  {
    |suffix| <= |s| && s[|s| - |suffix|..] == suffix
  }

  /**
   * The compiler's 'classes' product: for each target, and for each source
   * file, the class files it wrote under each output directory.
   */
  datatype ClassProducts = ClassProducts(
    byTarget: map<Target, map<Dir, seq<ClassName>>>,
    bySource: map<Source, map<Dir, seq<ClassName>>>)

  /** A class file, named by its output directory and its name there. */
  datatype ClassFile = ClassFile(dir: Dir, name: ClassName)

  /** The class-file parser: the names of the classes a class file refers to outside itself. */
  type ClassRefs = ClassFile -> set<string>

  // ---------------------------------------------------------------------------
  // Classes produced by targets (targets_by_class)

  /** The classes listed under the output directories `dirs`. */
  function ClassesIn(outdirs: map<Dir, seq<ClassName>>, dirs: set<Dir>): set<ClassName>
  {
    set d, c | d in dirs && d in outdirs && c in outdirs[d] :: c
  }

  /** Every class listed under any output directory. */
  function ClassesOf(outdirs: map<Dir, seq<ClassName>>): set<ClassName>
  {
    ClassesIn(outdirs, outdirs.Keys)
  }

  /** The classes each target of `ts` produced; targets absent from the products have no entry. */
  function ClassesByTarget(ts: seq<Target>, p: ClassProducts): map<Target, set<ClassName>>
  {
    map t | t in ts && t in p.byTarget :: ClassesOf(p.byTarget[t])
  }

  /** `targets_by_class`: each produced class maps to every target of `ts` that produced it. */
  function TargetsByClass(ts: seq<Target>, p: ClassProducts): map<ClassName, set<Target>>
  {
    Invert(ClassesByTarget(ts, p))
  }

  /** A target is filed under a class exactly when it is one of `ts`, it has products and it produced the class. */
  lemma ProducersIndexed(ts: seq<Target>, p: ClassProducts, cl: ClassName, t: Target)
    ensures (cl in TargetsByClass(ts, p) && t in TargetsByClass(ts, p)[cl])
        <==> (t in ts && t in p.byTarget && cl in ClassesOf(p.byTarget[t]))
  {
    InvertMembership(ClassesByTarget(ts, p), t, cl);
  }

  /** Every key of `targets_by_class` has at least one producer, and each producer is one of `ts`. */
  lemma ProducersNonEmpty(ts: seq<Target>, p: ClassProducts, cl: ClassName)
    requires cl in TargetsByClass(ts, p)
    ensures TargetsByClass(ts, p)[cl] != {}
    ensures forall t :: t in TargetsByClass(ts, p)[cl] ==> t in ts
  {
    var m := ClassesByTarget(ts, p);
    assert cl in Flatten(m);
    var t :| t in m && cl in m[t];
    assert t in TargetsByClass(ts, p)[cl];
  }

  lemma {:induction false} ClassesByTargetStep(ts: seq<Target>, t: Target, p: ClassProducts)
    ensures ClassesByTarget(ts + [t], p)
         == if t in p.byTarget then ClassesByTarget(ts, p)[t := ClassesOf(p.byTarget[t])]
            else ClassesByTarget(ts, p)
  {
    var a := ClassesByTarget(ts + [t], p);
    var b := if t in p.byTarget then ClassesByTarget(ts, p)[t := ClassesOf(p.byTarget[t])]
             else ClassesByTarget(ts, p);
    forall x ensures x in a <==> x in b {
      assert x in ts + [t] <==> x in ts || x == t;
    }
    assert a.Keys == b.Keys;
  }

  /** One target's turn of the producer loop: `targets_by_class` gains the target under every class it produced. */
  lemma TargetsByClassStep(ts: seq<Target>, t: Target, p: ClassProducts)
    ensures TargetsByClass(ts + [t], p)
         == if t in p.byTarget then AddToAll(TargetsByClass(ts, p), ClassesOf(p.byTarget[t]), t)
            else TargetsByClass(ts, p)
  {
    ClassesByTargetStep(ts, t, p);
    if t in p.byTarget {
      InvertAdd(ClassesByTarget(ts, p), t, ClassesOf(p.byTarget[t]));
    }
  }

  lemma ClassesInStep(outdirs: map<Dir, seq<ClassName>>, dirs: set<Dir>, d: Dir)
    requires d in outdirs
    ensures ClassesIn(outdirs, dirs + {d}) == ClassesIn(outdirs, dirs) + Elems(outdirs[d])
  {
  }

  /** The inner loop over one output directory: file the target under each class listed there. */
  method IndexClassList(index: map<ClassName, set<Target>>, classes: seq<ClassName>, t: Target)
    returns (r: map<ClassName, set<Target>>)
    ensures r == AddToAll(index, Elems(classes), t)
  {
    r := index;
    AddToAllNothing(index, t);
    for j := 0 to |classes|
      invariant r == AddToAll(index, Elems(classes[..j]), t)
    {
      ElemsStep(classes, j);
      AddToAllStep(index, Elems(classes[..j]), classes[j], t);
      r := Add(r, classes[j], t);
    }
    assert classes[..|classes|] == classes;
  }

  /**
   * The two loops at the head of a target's turn: for each output directory,
   * for each class listed there, file the target under that class.
   */
  method IndexProducedClasses(index: map<ClassName, set<Target>>, outdirs: map<Dir, seq<ClassName>>, t: Target)
    returns (r: map<ClassName, set<Target>>)
    ensures r == AddToAll(index, ClassesOf(outdirs), t)
  {
    r := index;
    AddToAllNothing(index, t);
    var todo := outdirs.Keys;
    while todo != {}
      invariant todo <= outdirs.Keys
      invariant r == AddToAll(index, ClassesIn(outdirs, outdirs.Keys - todo), t)
      decreases todo
    {
      var dir :| dir in todo;
      ghost var done := outdirs.Keys - todo;
      r := IndexClassList(r, outdirs[dir], t);
      AddToAllUnion(index, ClassesIn(outdirs, done), Elems(outdirs[dir]), t);
      ClassesInStep(outdirs, done, dir);
      assert outdirs.Keys - (todo - {dir}) == done + {dir};
      todo := todo - {dir};
    }
    assert outdirs.Keys - todo == outdirs.Keys;
  }

  // ---------------------------------------------------------------------------
  // Classes referenced by sources (deps_by_source, class_deps_by_target)

  /** The class files of source `s`; a source without products has none. */
  function ClassFilesOf(p: ClassProducts, s: Source): set<ClassFile>
  {
    if s in p.bySource then
      var outdirs := p.bySource[s];
      set d, i | d in outdirs && 0 <= i < |outdirs[d]| :: ClassFile(d, outdirs[d][i])
    else {}
  }

  /** `deps_by_source[s]`: `"<ref>.class"` for each external reference of each class file of `s`. */
  function SourceDeps(p: ClassProducts, refs: ClassRefs, s: Source): set<ClassName>
  {
    set cf, r | cf in ClassFilesOf(p, s) && r in refs(cf) :: r + ClassSuffix
  }

  /** Every class a source depends on is a reference of one of its class files, with `.class` appended. */
  lemma SourceDepsAreClassFiles(p: ClassProducts, refs: ClassRefs, s: Source, c: ClassName)
    requires c in SourceDeps(p, refs, s)
    ensures EndsWith(c, ClassSuffix)
    ensures exists cf, r :: cf in ClassFilesOf(p, s) && r in refs(cf) && c == r + ClassSuffix
  {
    var cf, r :| cf in ClassFilesOf(p, s) && r in refs(cf) && c == r + ClassSuffix;
    assert c[|c| - |ClassSuffix|..] == ClassSuffix;
  }

  /** The classes that the sources `srcs` depend on, all together. */
  function ClassDepsOf(p: ClassProducts, refs: ClassRefs, srcs: seq<Source>): set<ClassName>
  {
    set s, c | s in srcs && c in SourceDeps(p, refs, s) :: c
  }

  /** The sources of those targets of `ts` that have products. */
  function IndexedSources(ts: seq<Target>, p: ClassProducts, g: Graph): set<Source>
  {
    set t, s | t in ts && t in p.byTarget && s in g(t).sources :: s
  }

  /** `deps_by_source` once every target of `ts` has been processed. */
  function DepsBySource(ts: seq<Target>, p: ClassProducts, g: Graph, refs: ClassRefs): map<Source, set<ClassName>>
  {
    map s | s in IndexedSources(ts, p, g) :: SourceDeps(p, refs, s)
  }

  /** `class_deps_by_target` once every target of `ts` has been processed: only targets with products and sources have an entry. */
  function ClassDepsByTarget(ts: seq<Target>, p: ClassProducts, g: Graph, refs: ClassRefs): map<Target, set<ClassName>>
  {
    map t | t in ts && t in p.byTarget && |g(t).sources| > 0 :: ClassDepsOf(p, refs, g(t).sources)
  }

  /** A target's referenced classes are the union of `deps_by_source` over its sources. */
  lemma {:induction false} ClassDepsIsUnionOfSources(ts: seq<Target>, p: ClassProducts, g: Graph, refs: ClassRefs, t: Target)
    requires t in ClassDepsByTarget(ts, p, g, refs)
    ensures forall s :: s in g(t).sources ==> s in DepsBySource(ts, p, g, refs)
    ensures ClassDepsByTarget(ts, p, g, refs)[t]
         == set s, c | s in g(t).sources && c in DepsBySource(ts, p, g, refs)[s] :: c
  {
    var dbs := DepsBySource(ts, p, g, refs);
    forall s | s in g(t).sources ensures s in dbs {
      assert s in IndexedSources(ts, p, g);
    }
    var u := set s, c | s in g(t).sources && c in dbs[s] :: c;
    forall c ensures c in ClassDepsOf(p, refs, g(t).sources) <==> c in u {
      if c in u {
        var s :| s in g(t).sources && c in dbs[s];
        assert c in SourceDeps(p, refs, s);
      }
    }
  }

  /** A target that is absent from the class products adds nothing to any index. */
  lemma {:induction false} AbsentTargetAddsNothing(ts: seq<Target>, p: ClassProducts, g: Graph, refs: ClassRefs, t: Target)
    requires t !in p.byTarget
    ensures TargetsByClass(ts + [t], p) == TargetsByClass(ts, p)
    ensures DepsBySource(ts + [t], p, g, refs) == DepsBySource(ts, p, g, refs)
    ensures ClassDepsByTarget(ts + [t], p, g, refs) == ClassDepsByTarget(ts, p, g, refs)
  {
    TargetsByClassStep(ts, t, p);
    assert IndexedSources(ts + [t], p, g) == IndexedSources(ts, p, g) by {
      forall s ensures s in IndexedSources(ts + [t], p, g) ==> s in IndexedSources(ts, p, g) {
        if s in IndexedSources(ts + [t], p, g) {
          var x :| x in ts + [t] && x in p.byTarget && s in g(x).sources;
          assert x in ts;
        }
      }
    }
    var a := ClassDepsByTarget(ts + [t], p, g, refs);
    var b := ClassDepsByTarget(ts, p, g, refs);
    forall x ensures x in a <==> x in b {
      assert x in ts + [t] <==> x in ts || x == t;
    }
    assert a.Keys == b.Keys;
  }

  /** A source's map entry for the sources `srcs`. */
  function SourceDepsMap(p: ClassProducts, refs: ClassRefs, srcs: seq<Source>): map<Source, set<ClassName>>
  {
    map s | s in srcs :: SourceDeps(p, refs, s)
  }

  lemma SourceDepsMapStep(p: ClassProducts, refs: ClassRefs, base: map<Source, set<ClassName>>, srcs: seq<Source>, k: nat)
    requires k < |srcs|
    ensures (base + SourceDepsMap(p, refs, srcs[..k]))[srcs[k] := SourceDeps(p, refs, srcs[k])]
         == base + SourceDepsMap(p, refs, srcs[..k + 1])
  {
    assert srcs[..k + 1] == srcs[..k] + [srcs[k]];
    var a := (base + SourceDepsMap(p, refs, srcs[..k]))[srcs[k] := SourceDeps(p, refs, srcs[k])];
    var b := base + SourceDepsMap(p, refs, srcs[..k + 1]);
    assert a.Keys == b.Keys;
  }

  lemma {:induction false} DepsBySourceStep(ts: seq<Target>, t: Target, p: ClassProducts, g: Graph, refs: ClassRefs)
    requires t in p.byTarget
    ensures DepsBySource(ts + [t], p, g, refs)
         == DepsBySource(ts, p, g, refs) + SourceDepsMap(p, refs, g(t).sources)
  {
    var a := DepsBySource(ts + [t], p, g, refs);
    var b := DepsBySource(ts, p, g, refs) + SourceDepsMap(p, refs, g(t).sources);
    forall s ensures s in a <==> s in b {
      if s in IndexedSources(ts + [t], p, g) {
        var x :| x in ts + [t] && x in p.byTarget && s in g(x).sources;
        if x != t {
          assert x in ts;
          assert s in IndexedSources(ts, p, g);
        }
      }
      if s in IndexedSources(ts, p, g) {
        var x :| x in ts && x in p.byTarget && s in g(x).sources;
        assert x in ts + [t];
      }
      if s in g(t).sources {
        assert t in ts + [t];
      }
    }
    assert a.Keys == b.Keys;
  }

  lemma {:induction false} ClassDepsByTargetStep(ts: seq<Target>, t: Target, p: ClassProducts, g: Graph, refs: ClassRefs)
    requires t in p.byTarget
    ensures ClassDepsByTarget(ts + [t], p, g, refs)
         == if |g(t).sources| > 0 then ClassDepsByTarget(ts, p, g, refs)[t := ClassDepsOf(p, refs, g(t).sources)]
            else ClassDepsByTarget(ts, p, g, refs)
  {
    var a := ClassDepsByTarget(ts + [t], p, g, refs);
    var b := if |g(t).sources| > 0 then ClassDepsByTarget(ts, p, g, refs)[t := ClassDepsOf(p, refs, g(t).sources)]
             else ClassDepsByTarget(ts, p, g, refs);
    forall x ensures x in a <==> x in b {
      assert x in ts + [t] <==> x in ts || x == t;
    }
    assert a.Keys == b.Keys;
  }

  lemma ClassDepsOfStep(p: ClassProducts, refs: ClassRefs, srcs: seq<Source>, k: nat)
    requires k < |srcs|
    ensures ClassDepsOf(p, refs, srcs[..k + 1]) == ClassDepsOf(p, refs, srcs[..k]) + SourceDeps(p, refs, srcs[k])
  {
    assert srcs[..k + 1] == srcs[..k] + [srcs[k]];
    forall c ensures c in ClassDepsOf(p, refs, srcs[..k + 1]) ==> c in ClassDepsOf(p, refs, srcs[..k]) + SourceDeps(p, refs, srcs[k]) {
      if c in ClassDepsOf(p, refs, srcs[..k + 1]) {
        var s :| s in srcs[..k + 1] && c in SourceDeps(p, refs, s);
        if s != srcs[k] {
          assert s in srcs[..k];
        }
      }
    }
  }

  /**
   * The dependencies of one source file: collect its class files over every
   * output directory, then union the references of each class file, each
   * with `.class` appended.
   */
  method SourceFileDeps(p: ClassProducts, refs: ClassRefs, s: Source) returns (deps: set<ClassName>)
    ensures deps == SourceDeps(p, refs, s)
    ensures forall c :: c in deps ==> EndsWith(c, ClassSuffix)
  {
    var outdirs := if s in p.bySource then p.bySource[s] else map[];
    var classFiles: set<ClassFile> := {};
    var dirs := outdirs.Keys;
    while dirs != {}
      invariant dirs <= outdirs.Keys
      invariant classFiles == set d, i | d in outdirs.Keys - dirs && 0 <= i < |outdirs[d]| :: ClassFile(d, outdirs[d][i])
      decreases dirs
    {
      var dir :| dir in dirs;
      classFiles := classFiles + set i | 0 <= i < |outdirs[dir]| :: ClassFile(dir, outdirs[dir][i]);
      dirs := dirs - {dir};
    }
    assert classFiles == ClassFilesOf(p, s);
    deps := {};
    var todo := classFiles;
    while todo != {}
      invariant todo <= classFiles
      invariant deps == set cf, r | cf in classFiles - todo && r in refs(cf) :: r + ClassSuffix
      decreases todo
    {
      var cf :| cf in todo;
      deps := deps + set r | r in refs(cf) :: r + ClassSuffix;
      todo := todo - {cf};
    }
    forall c | c in deps ensures EndsWith(c, ClassSuffix) {
      SourceDepsAreClassFiles(p, refs, s, c);
    }
  }

  /**
   * The loop over one target's sources: record each source's referenced
   * classes under the source, and add them to the target's.
   */
  method IndexSources(dbs: map<Source, set<ClassName>>, cd: map<Target, set<ClassName>>, p: ClassProducts, refs: ClassRefs,
                      t: Target, sources: seq<Source>)
    returns (dbs': map<Source, set<ClassName>>, cd': map<Target, set<ClassName>>)
    ensures dbs' == dbs + SourceDepsMap(p, refs, sources)
    ensures cd' == if sources == [] then cd else cd[t := Get(cd, t) + ClassDepsOf(p, refs, sources)]
  {
    dbs', cd' := dbs, cd;
    assert dbs + SourceDepsMap(p, refs, sources[..0]) == dbs;
    assert ClassDepsOf(p, refs, sources[..0]) == {};
    for k := 0 to |sources|
      invariant dbs' == dbs + SourceDepsMap(p, refs, sources[..k])
      invariant cd' == if k == 0 then cd else cd[t := Get(cd, t) + ClassDepsOf(p, refs, sources[..k])]
    {
      var sourceFileDeps := SourceFileDeps(p, refs, sources[k]);
      SourceDepsMapStep(p, refs, dbs, sources, k);
      ClassDepsOfStep(p, refs, sources, k);
      dbs' := dbs'[sources[k] := sourceFileDeps];
      assert Get(cd', t) + sourceFileDeps == Get(cd, t) + ClassDepsOf(p, refs, sources[..k + 1]);
      cd' := Update(cd', t, sourceFileDeps);
    }
    assert sources[..|sources|] == sources;
  }

  // ---------------------------------------------------------------------------
  // Jar dependencies and the classes their jars provide (jar_targets_by_class)

  /** A key of the jar-dependency product: an `(org, name)` pair, or any other form the resolver files under. */
  datatype JarProductKey = CoordKey(coord: Coord) | OtherKey(form: string)

  /** The 'jar_dependencies' product: for each key, the jar files under each directory. */
  type JarProducts = map<JarProductKey, map<Dir, seq<string>>>

  /** A jar file, named by its directory and its name there. */
  datatype JarPath = JarPath(dir: Dir, file: string)

  /** The entry names of each jar file. */
  type JarEntries = JarPath -> seq<string>

  /**
   * The jar dependencies that walking `walk` collects: every jar-dependency
   * node, and every jar dependency a JVM target lists.
   */
  function JardepsReached(g: Graph, walk: set<Target>): set<Target>
  {
    (set n | n in walk && g(n).kind.JarDependency?)
    + (set n, j | n in walk && g(n).kind.JvmTarget? && j in g(n).jarDependencies :: j)
  }

  /** The jar dependencies reached from any target of `ts`. */
  function FoundJarDeps(g: Graph, ts: seq<Target>): set<Target>
  {
    set t, j | t in ts && j in JardepsReached(g, g(t).walk) :: j
  }

  /** The coordinates of the jar dependencies among `jds`. */
  function CoordsOf(g: Graph, jds: set<Target>): set<Coord>
  {
    set jd | jd in jds && g(jd).kind.JarDependency? :: g(jd).kind.coord
  }

  /** Everything a walk collects is a jar-dependency node, and a walk that reaches one collects it. */
  lemma JardepsReachedAreJars(g: Graph, walk: set<Target>)
    requires WellFormed(g)
    ensures forall jd :: jd in JardepsReached(g, walk) ==> g(jd).kind.JarDependency?
    ensures forall n :: n in walk && g(n).kind.JarDependency? ==> n in JardepsReached(g, walk)
  {
  }

  lemma JardepsReachedUnion(g: Graph, walk: set<Target>, n: Target)
    ensures JardepsReached(g, walk + {n}) == JardepsReached(g, walk) + JardepsReached(g, {n})
  {
  }

  /** The jar files listed under one product key. */
  function JarsOf(product: map<Dir, seq<string>>): set<JarPath>
  {
    set d, i | d in product && 0 <= i < |product[d]| :: JarPath(d, product[d][i])
  }

  /**
   * `jars_by_target` after the product loop: only product keys equal to the
   * coordinate of a found jar dependency are used; each such coordinate has
   * exactly one jar dependency as key, which maps to the jars under that key.
   */
  ghost predicate JarsIndexed(jbt: map<Target, set<JarPath>>, g: Graph, found: set<Target>, jp: JarProducts)
  {
    && (forall jd :: jd in jbt ==>
          && jd in found
          && g(jd).kind.JarDependency?
          && CoordKey(g(jd).kind.coord) in jp
          && jbt[jd] == JarsOf(jp[CoordKey(g(jd).kind.coord)]))
    && (forall c :: CoordKey(c) in jp && c in CoordsOf(g, found) ==> c in CoordsOf(g, jbt.Keys))
    && (forall jd1, jd2 :: jd1 in jbt && jd2 in jbt && g(jd1).kind == g(jd2).kind ==> jd1 == jd2)
  }

  /** The `.class` entries of one jar's entry list. */
  function ClassEntries(files: seq<string>): set<string>
  {
    set f | f in files && EndsWith(f, ClassSuffix)
  }

  /** The `.class` entries of the jars `jars`. */
  function JarClasses(jars: set<JarPath>, entries: JarEntries): set<string>
  {
    set jar, f | jar in jars && f in ClassEntries(entries(jar)) :: f
  }

  function JarClassesByTarget(jbt: map<Target, set<JarPath>>, entries: JarEntries): map<Target, set<string>>
  {
    map jd | jd in jbt :: JarClasses(jbt[jd], entries)
  }

  /** `jar_targets_by_class`: each `.class` entry of a jar maps to every jar dependency owning such a jar. */
  function JarTargetsByClass(jbt: map<Target, set<JarPath>>, entries: JarEntries): map<ClassName, set<Target>>
  {
    Invert(JarClassesByTarget(jbt, entries))
  }

  /** Indexing the jars of one more dependency adds that dependency's entry. */
  lemma JarClassesByTargetStep(jbt: map<Target, set<JarPath>>, done: set<Target>, jd: Target, entries: JarEntries)
    requires jd in jbt && jd !in done
    ensures jd !in JarClassesByTarget(Restrict(jbt, done), entries)
    ensures JarClassesByTarget(Restrict(jbt, done + {jd}), entries)
         == JarClassesByTarget(Restrict(jbt, done), entries)[jd := JarClasses(jbt[jd], entries)]
  {
    var a := JarClassesByTarget(Restrict(jbt, done + {jd}), entries);
    var b := JarClassesByTarget(Restrict(jbt, done), entries)[jd := JarClasses(jbt[jd], entries)];
    assert a.Keys == b.Keys;
  }

  /** Every key of `jar_targets_by_class` ends in `.class` and is an entry of a jar of each dependency it maps to. */
  lemma {:induction false} JarIndexEntries(jbt: map<Target, set<JarPath>>, entries: JarEntries, cl: ClassName, jd: Target)
    requires cl in JarTargetsByClass(jbt, entries) && jd in JarTargetsByClass(jbt, entries)[cl]
    ensures EndsWith(cl, ClassSuffix)
    ensures jd in jbt && exists jar, i :: jar in jbt[jd] && 0 <= i < |entries(jar)| && entries(jar)[i] == cl
  {
    InvertMembership(JarClassesByTarget(jbt, entries), jd, cl);
    var jar :| jar in jbt[jd] && cl in ClassEntries(entries(jar));
    var i :| 0 <= i < |entries(jar)| && entries(jar)[i] == cl;
  }

  /** `jardeps_by_id`: a loop over the found jar dependencies keyed by coordinate; a later one with the same coordinate replaces an earlier one. */
  method JardepsById(g: Graph, found: set<Target>) returns (byId: map<Coord, Target>)
    requires forall jd :: jd in found ==> g(jd).kind.JarDependency?
    ensures byId.Keys == CoordsOf(g, found)
    ensures forall c :: c in byId ==> byId[c] in found && g(byId[c]).kind == JarDependency(c)
  {
    byId := map[];
    var todo := found;
    while todo != {}
      invariant todo <= found
      invariant byId.Keys == CoordsOf(g, found - todo)
      invariant forall c :: c in byId ==> byId[c] in found && g(byId[c]).kind == JarDependency(c)
      decreases todo
    {
      var jd :| jd in todo;
      byId := byId[g(jd).kind.coord := jd];
      assert found - (todo - {jd}) == (found - todo) + {jd};
      todo := todo - {jd};
    }
    assert found - todo == found;
  }

  /** `jars_for_target`: the path of every jar listed under every directory of one product entry. */
  method JarsForKey(product: map<Dir, seq<string>>) returns (jars: set<JarPath>)
    ensures jars == JarsOf(product)
  {
    jars := {};
    var dirs := product.Keys;
    while dirs != {}
      invariant dirs <= product.Keys
      invariant jars == set d, i | d in product.Keys - dirs && 0 <= i < |product[d]| :: JarPath(d, product[d][i])
      decreases dirs
    {
      var dir :| dir in dirs;
      var files := product[dir];
      ghost var before := jars;
      for k := 0 to |files|
        invariant jars == before + set i | 0 <= i < k :: JarPath(dir, files[i])
      {
        assert (set i | 0 <= i < k + 1 :: JarPath(dir, files[i])) == (set i | 0 <= i < k :: JarPath(dir, files[i])) + {JarPath(dir, files[k])};
        jars := jars + {JarPath(dir, files[k])};
      }
      dirs := dirs - {dir};
    }
  }

  lemma ClassEntriesStep(files: seq<string>, k: nat)
    requires k < |files|
    ensures ClassEntries(files[..k + 1])
         == ClassEntries(files[..k]) + if EndsWith(files[k], ClassSuffix) then {files[k]} else {}
  {
    assert files[..k + 1] == files[..k] + [files[k]];
  }

  /** The inner loop over one jar: file the dependency under each of the jar's `.class` entries. */
  method IndexClassEntries(index: map<ClassName, set<Target>>, files: seq<string>, jd: Target)
    returns (r: map<ClassName, set<Target>>)
    ensures r == AddToAll(index, ClassEntries(files), jd)
  {
    r := index;
    AddToAllNothing(index, jd);
    for k := 0 to |files|
      invariant r == AddToAll(index, ClassEntries(files[..k]), jd)
    {
      ClassEntriesStep(files, k);
      if EndsWith(files[k], ClassSuffix) {
        AddToAllStep(index, ClassEntries(files[..k]), files[k], jd);
        r := Add(r, files[k], jd);
      }
    }
    assert files[..|files|] == files;
  }

  /** For each jar of one dependency, for each `.class` entry of that jar, file the dependency under the entry. */
  method IndexJarEntries(index: map<ClassName, set<Target>>, jars: set<JarPath>, entries: JarEntries, jd: Target)
    returns (r: map<ClassName, set<Target>>)
    ensures r == AddToAll(index, JarClasses(jars, entries), jd)
  {
    r := index;
    AddToAllNothing(index, jd);
    var todo := jars;
    while todo != {}
      invariant todo <= jars
      invariant r == AddToAll(index, JarClasses(jars - todo, entries), jd)
      decreases todo
    {
      var jar :| jar in todo;
      ghost var done := jars - todo;
      r := IndexClassEntries(r, entries(jar), jd);
      AddToAllUnion(index, JarClasses(done, entries), ClassEntries(entries(jar)), jd);
      assert JarClasses(done + {jar}, entries) == JarClasses(done, entries) + ClassEntries(entries(jar));
      assert jars - (todo - {jar}) == done + {jar};
      todo := todo - {jar};
    }
    assert jars - todo == jars;
  }

  /**
   * The loop over the jar products: a key that is the coordinate of a found
   * jar dependency maps that dependency to the jars listed under the key;
   * every other key is skipped.
   */
  method IndexJarProducts(jp: JarProducts, byId: map<Coord, Target>, g: Graph, found: set<Target>)
    returns (jbt: map<Target, set<JarPath>>)
    requires byId.Keys == CoordsOf(g, found)
    requires forall c :: c in byId ==> byId[c] in found && g(byId[c]).kind == JarDependency(c)
    ensures JarsIndexed(jbt, g, found, jp)
  {
    jbt := map[];
    var keys := jp.Keys;
    while keys != {}
      invariant keys <= jp.Keys
      invariant forall jd :: jd in jbt ==>
        && jd in found && g(jd).kind.JarDependency?
        && CoordKey(g(jd).kind.coord) in jp.Keys - keys
        && byId[g(jd).kind.coord] == jd
        && jbt[jd] == JarsOf(jp[CoordKey(g(jd).kind.coord)])
      invariant forall c :: CoordKey(c) in jp.Keys - keys && c in byId ==> byId[c] in jbt
      decreases keys
    {
      var key :| key in keys;
      if key.CoordKey? && key.coord in byId {
        var target := byId[key.coord];
        var jarsForTarget := JarsForKey(jp[key]);
        jbt := jbt[target := jarsForTarget];
      }
      keys := keys - {key};
    }
    forall c | CoordKey(c) in jp && c in CoordsOf(g, found)
      ensures c in CoordsOf(g, jbt.Keys)
    {
      assert byId[c] in jbt;
    }
  }

  /** The loop over the indexed jars: file each jar dependency under every `.class` entry of each of its jars. */
  method IndexJarContents(jbt: map<Target, set<JarPath>>, entries: JarEntries) returns (jtbc: map<ClassName, set<Target>>)
    ensures jtbc == JarTargetsByClass(jbt, entries)
  {
    jtbc := map[];
    var jds := jbt.Keys;
    InvertEmpty(JarClassesByTarget(Restrict(jbt, {}), entries));
    while jds != {}
      invariant jds <= jbt.Keys
      invariant jtbc == JarTargetsByClass(Restrict(jbt, jbt.Keys - jds), entries)
      decreases jds
    {
      var target :| target in jds;
      ghost var done := jbt.Keys - jds;
      JarClassesByTargetStep(jbt, done, target, entries);
      InvertAdd(JarClassesByTarget(Restrict(jbt, done), entries), target, JarClasses(jbt[target], entries));
      jtbc := IndexJarEntries(jtbc, jbt[target], entries, target);
      assert jbt.Keys - (jds - {target}) == done + {target};
      jds := jds - {target};
    }
    assert Restrict(jbt, jbt.Keys - jds) == jbt;
  }

  // ---------------------------------------------------------------------------
  // Resolution of referenced classes to providers (computed_deps, computed_jar_deps)

  /** The cached result: each target's target dependencies and jar dependencies. */
  datatype Computed = Computed(deps: map<Target, set<Target>>, jarDeps: map<Target, set<Target>>)

  /** Everything `byClass` files under the classes of `classes`. */
  function Providers(classes: set<ClassName>, byClass: map<ClassName, set<Target>>): set<Target>
  {
    set cl, t | cl in classes && cl in byClass && t in byClass[cl] :: t
  }

  /** The targets of `classDeps` with some referenced class in `byClass`, each mapped to the providers of its classes there. */
  function ResolveWith(classDeps: map<Target, set<ClassName>>, byClass: map<ClassName, set<Target>>): map<Target, set<Target>>
  {
    map t | t in classDeps && classDeps[t] * byClass.Keys != {} :: Providers(classDeps[t], byClass)
  }

  /** Each target's referenced classes that no target produced. */
  function Unproduced(classDeps: map<Target, set<ClassName>>, tbc: map<ClassName, set<Target>>): map<Target, set<ClassName>>
  {
    map t | t in classDeps :: classDeps[t] - tbc.Keys
  }

  /**
   * The resolution loop: a referenced class found in `tbc` contributes its
   * producing targets; otherwise, if found in `jtbc`, its jar dependencies;
   * otherwise nothing. A target gets an entry only when some class resolves.
   */
  function Resolve(classDeps: map<Target, set<ClassName>>, tbc: map<ClassName, set<Target>>, jtbc: map<ClassName, set<Target>>): Computed
  {
    Computed(ResolveWith(classDeps, tbc), ResolveWith(Unproduced(classDeps, tbc), jtbc))
  }

  /**
   * A target's computed dependencies are exactly the targets filed under the
   * classes it references; its computed jar dependencies come only from
   * classes that no target produced.
   */
  lemma ResolvedExactly(classDeps: map<Target, set<ClassName>>, tbc: map<ClassName, set<Target>>, jtbc: map<ClassName, set<Target>>, t: Target, x: Target)
    ensures (t in Resolve(classDeps, tbc, jtbc).deps && x in Resolve(classDeps, tbc, jtbc).deps[t])
        <==> (t in classDeps && exists cl :: cl in classDeps[t] && cl in tbc && x in tbc[cl])
    ensures (t in Resolve(classDeps, tbc, jtbc).jarDeps && x in Resolve(classDeps, tbc, jtbc).jarDeps[t])
        <==> (t in classDeps && exists cl :: cl in classDeps[t] && cl !in tbc && cl in jtbc && x in jtbc[cl])
  {
    if t in classDeps {
      if cl :| cl in classDeps[t] && cl in tbc && x in tbc[cl] {
        assert cl in classDeps[t] * tbc.Keys;
      }
      if cl :| cl in classDeps[t] && cl !in tbc && cl in jtbc && x in jtbc[cl] {
        assert cl in (classDeps[t] - tbc.Keys) * jtbc.Keys;
      }
    }
  }

  /** Precedence of the `elif`: jar entries for classes some target produced never matter. */
  lemma {:induction false} TargetProvidersTakePrecedence(classDeps: map<Target, set<ClassName>>, tbc: map<ClassName, set<Target>>, jtbc: map<ClassName, set<Target>>)
    ensures Resolve(classDeps, tbc, jtbc) == Resolve(classDeps, tbc, jtbc - tbc.Keys)
  {
    var a := Resolve(classDeps, tbc, jtbc).jarDeps;
    var b := Resolve(classDeps, tbc, jtbc - tbc.Keys).jarDeps;
    forall t | t in classDeps
      ensures (classDeps[t] - tbc.Keys) * jtbc.Keys == (classDeps[t] - tbc.Keys) * (jtbc - tbc.Keys).Keys
      ensures Providers(classDeps[t] - tbc.Keys, jtbc) == Providers(classDeps[t] - tbc.Keys, jtbc - tbc.Keys)
    {
      var rest := classDeps[t] - tbc.Keys;
      forall x | x in Providers(rest, jtbc) ensures x in Providers(rest, jtbc - tbc.Keys) {
        var cl :| cl in rest && cl in jtbc && x in jtbc[cl];
        assert cl in jtbc - tbc.Keys;
      }
    }
    assert a.Keys == b.Keys;
  }

  /** A class in neither index contributes to neither result. */
  lemma {:induction false} UnresolvedClassIgnored(classDeps: map<Target, set<ClassName>>, tbc: map<ClassName, set<Target>>, jtbc: map<ClassName, set<Target>>, t: Target, cl: ClassName)
    requires t in classDeps && cl !in tbc && cl !in jtbc
    ensures Resolve(classDeps[t := classDeps[t] - {cl}], tbc, jtbc) == Resolve(classDeps, tbc, jtbc)
  {
    var cd := classDeps[t := classDeps[t] - {cl}];
    assert cd[t] * tbc.Keys == classDeps[t] * tbc.Keys;
    assert (cd[t] - tbc.Keys) * jtbc.Keys == (classDeps[t] - tbc.Keys) * jtbc.Keys;
    assert Providers(cd[t], tbc) == Providers(classDeps[t], tbc);
    assert Providers(cd[t] - tbc.Keys, jtbc) == Providers(classDeps[t] - tbc.Keys, jtbc);
    var a := Resolve(cd, tbc, jtbc);
    var b := Resolve(classDeps, tbc, jtbc);
    assert a.deps.Keys == b.deps.Keys;
    assert a.jarDeps.Keys == b.jarDeps.Keys;
  }

  /** The resolver does not exclude the target itself: referencing a class of its own puts it in its own dependencies. */
  lemma SelfNotExcluded(classDeps: map<Target, set<ClassName>>, tbc: map<ClassName, set<Target>>, jtbc: map<ClassName, set<Target>>, t: Target, cl: ClassName)
    requires t in classDeps && cl in classDeps[t] && cl in tbc && t in tbc[cl]
    ensures t in Resolve(classDeps, tbc, jtbc).deps && t in Resolve(classDeps, tbc, jtbc).deps[t]
  {
    ResolvedExactly(classDeps, tbc, jtbc, t, t);
  }

  lemma ProvidersStep(classes: set<ClassName>, cl: ClassName, byClass: map<ClassName, set<Target>>)
    ensures Providers(classes + {cl}, byClass) == Providers(classes, byClass) + Get(byClass, cl)
  {
  }

  lemma ProvidersNone(classes: set<ClassName>, byClass: map<ClassName, set<Target>>)
    requires classes * byClass.Keys == {}
    ensures Providers(classes, byClass) == {}
  {
    forall cl | cl in classes ensures cl !in byClass {
      assert cl !in classes * byClass.Keys;
    }
  }

  /** Adding class `cl` to the classes a target has resolved against `byClass` so far, in the map `m`. */
  lemma ResolvedOneMore(m: map<Target, set<Target>>, m0: map<Target, set<Target>>, t: Target, done: set<ClassName>, cl: ClassName,
                        byClass: map<ClassName, set<Target>>)
    requires cl in byClass
    requires m == if done * byClass.Keys != {} then m0[t := Get(m0, t) + Providers(done, byClass)] else m0
    ensures Update(m, t, byClass[cl]) == m0[t := Get(m0, t) + Providers(done + {cl}, byClass)]
  {
    ProvidersStep(done, cl, byClass);
    var want := Get(m0, t) + Providers(done + {cl}, byClass);
    if done * byClass.Keys == {} {
      ProvidersNone(done, byClass);
      assert Get(m, t) == Get(m0, t);
    } else {
      assert Get(m, t) == Get(m0, t) + Providers(done, byClass);
    }
    assert Get(m, t) + byClass[cl] == want;
    var a := Update(m, t, byClass[cl]);
    var b := m0[t := want];
    assert a.Keys == b.Keys;
    forall k | k in a ensures a[k] == b[k] { }
  }

  /**
   * One target's turn of the resolution loop: for each class it references,
   * a class some target produced adds its producers to `deps[t]`; otherwise a
   * class some jar provides adds its jar dependencies to `jarDeps[t]`.
   */
  method ResolveClasses(deps: map<Target, set<Target>>, jarDeps: map<Target, set<Target>>, t: Target, classes: set<ClassName>,
                        tbc: map<ClassName, set<Target>>, jtbc: map<ClassName, set<Target>>)
    returns (deps': map<Target, set<Target>>, jarDeps': map<Target, set<Target>>)
    ensures deps' == if classes * tbc.Keys != {} then deps[t := Get(deps, t) + Providers(classes, tbc)] else deps
    ensures jarDeps' == if (classes - tbc.Keys) * jtbc.Keys != {} then jarDeps[t := Get(jarDeps, t) + Providers(classes - tbc.Keys, jtbc)] else jarDeps
  {
    deps', jarDeps' := deps, jarDeps;
    var todo := classes;
    while todo != {}
      invariant todo <= classes
      invariant deps' == if (classes - todo) * tbc.Keys != {} then deps[t := Get(deps, t) + Providers(classes - todo, tbc)] else deps
      invariant jarDeps' == if ((classes - todo) - tbc.Keys) * jtbc.Keys != {} then jarDeps[t := Get(jarDeps, t) + Providers((classes - todo) - tbc.Keys, jtbc)] else jarDeps
      decreases todo
    {
      var cl :| cl in todo;
      ghost var done := classes - todo;
      ghost var next := done + {cl};
      assert classes - (todo - {cl}) == next;
      if cl in tbc {
        ResolvedOneMore(deps', deps, t, done, cl, tbc);
        assert next - tbc.Keys == done - tbc.Keys;
        deps' := Update(deps', t, tbc[cl]);
        assert cl in next * tbc.Keys;
        assert deps' == deps[t := Get(deps, t) + Providers(next, tbc)];
        assert jarDeps' == if (next - tbc.Keys) * jtbc.Keys != {} then jarDeps[t := Get(jarDeps, t) + Providers(next - tbc.Keys, jtbc)] else jarDeps;
      } else if cl in jtbc {
        ResolvedOneMore(jarDeps', jarDeps, t, done - tbc.Keys, cl, jtbc);
        assert next - tbc.Keys == (done - tbc.Keys) + {cl};
        assert next * tbc.Keys == done * tbc.Keys;
        assert Providers(next, tbc) == Providers(done, tbc);
        jarDeps' := Update(jarDeps', t, jtbc[cl]);
        assert cl in (next - tbc.Keys) * jtbc.Keys;
        assert jarDeps' == jarDeps[t := Get(jarDeps, t) + Providers(next - tbc.Keys, jtbc)];
        assert deps' == if next * tbc.Keys != {} then deps[t := Get(deps, t) + Providers(next, tbc)] else deps;
      } else {
        assert next * tbc.Keys == done * tbc.Keys;
        assert next - tbc.Keys == (done - tbc.Keys) + {cl};
        assert (next - tbc.Keys) * jtbc.Keys == (done - tbc.Keys) * jtbc.Keys;
        ProvidersStep(done, cl, tbc);
        ProvidersStep(done - tbc.Keys, cl, jtbc);
        assert Providers(next, tbc) == Providers(done, tbc);
        assert Providers(next - tbc.Keys, jtbc) == Providers(done - tbc.Keys, jtbc);
        assert deps' == if next * tbc.Keys != {} then deps[t := Get(deps, t) + Providers(next, tbc)] else deps;
        assert jarDeps' == if (next - tbc.Keys) * jtbc.Keys != {} then jarDeps[t := Get(jarDeps, t) + Providers(next - tbc.Keys, jtbc)] else jarDeps;
      }
      todo := todo - {cl};
    }
    assert classes - todo == classes;
  }

  /** Resolving one more target against `byClass` adds at most that target's entry. */
  lemma {:induction false} ResolveWithStep(classDeps: map<Target, set<ClassName>>, done: set<Target>, t: Target, byClass: map<ClassName, set<Target>>)
    requires t in classDeps && t !in done
    ensures t !in ResolveWith(Restrict(classDeps, done), byClass)
    ensures ResolveWith(Restrict(classDeps, done + {t}), byClass)
         == if classDeps[t] * byClass.Keys != {} then ResolveWith(Restrict(classDeps, done), byClass)[t := Providers(classDeps[t], byClass)]
            else ResolveWith(Restrict(classDeps, done), byClass)
  {
    var a := ResolveWith(Restrict(classDeps, done + {t}), byClass);
    var b := if classDeps[t] * byClass.Keys != {} then ResolveWith(Restrict(classDeps, done), byClass)[t := Providers(classDeps[t], byClass)]
             else ResolveWith(Restrict(classDeps, done), byClass);
    assert a.Keys == b.Keys;
  }

  lemma UnproducedRestrict(classDeps: map<Target, set<ClassName>>, done: set<Target>, tbc: map<ClassName, set<Target>>)
    ensures Unproduced(Restrict(classDeps, done), tbc) == Restrict(Unproduced(classDeps, tbc), done)
  {
    var a := Unproduced(Restrict(classDeps, done), tbc);
    var b := Restrict(Unproduced(classDeps, tbc), done);
    assert a.Keys == b.Keys;
  }

  /** Resolving one more target extends both results by at most that target's entry. */
  lemma ResolveStep(classDeps: map<Target, set<ClassName>>, done: set<Target>, t: Target,
                    tbc: map<ClassName, set<Target>>, jtbc: map<ClassName, set<Target>>)
    requires t in classDeps && t !in done
    ensures var c0 := Resolve(Restrict(classDeps, done), tbc, jtbc);
      var c1 := Resolve(Restrict(classDeps, done + {t}), tbc, jtbc);
      && c1.deps == (if classDeps[t] * tbc.Keys != {} then c0.deps[t := Get(c0.deps, t) + Providers(classDeps[t], tbc)] else c0.deps)
      && c1.jarDeps == (if (classDeps[t] - tbc.Keys) * jtbc.Keys != {}
                        then c0.jarDeps[t := Get(c0.jarDeps, t) + Providers(classDeps[t] - tbc.Keys, jtbc)] else c0.jarDeps)
  {
    var r0, r1 := Restrict(classDeps, done), Restrict(classDeps, done + {t});
    ResolveWithStep(classDeps, done, t, tbc);
    assert Get(ResolveWith(r0, tbc), t) == {};
    var u := Unproduced(classDeps, tbc);
    UnproducedRestrict(classDeps, done, tbc);
    UnproducedRestrict(classDeps, done + {t}, tbc);
    assert Unproduced(r0, tbc) == Restrict(u, done) && Unproduced(r1, tbc) == Restrict(u, done + {t});
    ResolveWithStep(u, done, t, jtbc);
    assert u[t] == classDeps[t] - tbc.Keys;
    assert Get(ResolveWith(Restrict(u, done), jtbc), t) == {};
    var p0, q0 := Providers(classDeps[t], tbc), Providers(classDeps[t] - tbc.Keys, jtbc);
    assert Get(ResolveWith(r0, tbc), t) + p0 == p0;
    assert Get(ResolveWith(Restrict(u, done), jtbc), t) + q0 == q0;
    assert Resolve(r0, tbc, jtbc).jarDeps == ResolveWith(Restrict(u, done), jtbc);
    assert Resolve(r1, tbc, jtbc).jarDeps == ResolveWith(Restrict(u, done + {t}), jtbc);
  }

  /**
   * The resolution loop of `get_compilation_dependencies`: for each target of
   * `classDeps`, resolve its referenced classes.
   */
  method ResolveAll(classDeps: map<Target, set<ClassName>>, tbc: map<ClassName, set<Target>>, jtbc: map<ClassName, set<Target>>)
    returns (c: Computed)
    ensures c == Resolve(classDeps, tbc, jtbc)
  {
    var deps, jarDeps := map[], map[];
    var todo := classDeps.Keys;
    while todo != {}
      invariant todo <= classDeps.Keys
      invariant Computed(deps, jarDeps) == Resolve(Restrict(classDeps, classDeps.Keys - todo), tbc, jtbc)
      decreases todo
    {
      var target :| target in todo;
      ghost var done := classDeps.Keys - todo;
      ResolveStep(classDeps, done, target, tbc, jtbc);
      deps, jarDeps := ResolveClasses(deps, jarDeps, target, classDeps[target], tbc, jtbc);
      assert classDeps.Keys - (todo - {target}) == done + {target};
      todo := todo - {target};
    }
    assert Restrict(classDeps, classDeps.Keys - todo) == classDeps;
    c := Computed(deps, jarDeps);
  }

  // ---------------------------------------------------------------------------
  // Blame

  /** Source `s` references class `cl`, and `to` is a recorded producer of `cl`. */
  predicate Justifies(depsBySource: map<Source, set<ClassName>>, tbc: map<ClassName, set<Target>>, s: Source, cl: ClassName, to: Target)
  {
    cl in Get(depsBySource, s) && cl in tbc && to in tbc[cl]
  }

  /** Some class referenced by `s` is produced by `to`. */
  ghost predicate Blames(depsBySource: map<Source, set<ClassName>>, tbc: map<ClassName, set<Target>>, s: Source, to: Target)
  {
    exists cl :: Justifies(depsBySource, tbc, s, cl, to)
  }

  /** Index `i` holds the first source of `srcs` that blames `to`. */
  ghost predicate FirstBlaming(depsBySource: map<Source, set<ClassName>>, tbc: map<ClassName, set<Target>>, srcs: seq<Source>, i: int, to: Target)
  {
    && 0 <= i < |srcs|
    && Blames(depsBySource, tbc, srcs[i], to)
    && forall j :: 0 <= j < i ==> !Blames(depsBySource, tbc, srcs[j], to)
  }

  /**
   * Every computed target dependency has a justification: some source of the
   * dependent target references a class the dependency produced.
   */
  lemma {:induction false} ComputedDepIsBlamable(ts: seq<Target>, p: ClassProducts, g: Graph, refs: ClassRefs, jtbc: map<ClassName, set<Target>>, t: Target, d: Target)
    requires t in Resolve(ClassDepsByTarget(ts, p, g, refs), TargetsByClass(ts, p), jtbc).deps
    requires d in Resolve(ClassDepsByTarget(ts, p, g, refs), TargetsByClass(ts, p), jtbc).deps[t]
    ensures exists i :: 0 <= i < |g(t).sources| && Blames(DepsBySource(ts, p, g, refs), TargetsByClass(ts, p), g(t).sources[i], d)
  {
    var cdbt := ClassDepsByTarget(ts, p, g, refs);
    var tbc := TargetsByClass(ts, p);
    var dbs := DepsBySource(ts, p, g, refs);
    ResolvedExactly(cdbt, tbc, jtbc, t, d);
    var cl :| cl in cdbt[t] && cl in tbc && d in tbc[cl];
    ClassDepsIsUnionOfSources(ts, p, g, refs, t);
    var s :| s in g(t).sources && cl in dbs[s];
    var i :| 0 <= i < |g(t).sources| && g(t).sources[i] == s;
    assert Justifies(dbs, tbc, s, cl, d);
  }
}
