/** What import expansion answers on every file system, cyclic ones included. */
module ImportOrder {
  import opened Wrappers
  import opened NexAst
  import opened ProgramText
  import opened Imports

  /** Each path of w imports the next one. */
  ghost predicate IsWalk(fs: FileSystem, w: seq<Path>) {
    |w| >= 1 && forall i, j :: 0 <= i < |w| - 1 && j == i + 1 ==> w[j] in Edges(fs, w[i])
  }

  ghost predicate WalkFrom(fs: FileSystem, roots: seq<Path>, w: seq<Path>) {
    IsWalk(fs, w) && w[0] in roots
  }

  ghost predicate Reaches(fs: FileSystem, roots: seq<Path>, p: Path) {
    exists w :: WalkFrom(fs, roots, w) && w[|w| - 1] == p
  }

  /** w is a chain of imports from a path back to itself. */
  ghost predicate IsCycle(fs: FileSystem, w: seq<Path>) {
    IsWalk(fs, w) && |w| >= 2 && w[0] == w[|w| - 1]
  }

  ghost predicate Readable(fs: FileSystem, p: Path) {
    p in fs.files && fs.files[p].Parsed?
  }

  /** The error names a fault that really is there, among the files the program reaches. */
  ghost predicate Explains(fs: FileSystem, roots: seq<Path>, e: EvalError) {
    match e
    case CircularImport(chain) => IsCycle(fs, chain) && Reaches(fs, roots, chain[0])
    case MissingImport(p) => Reaches(fs, roots, p) && p !in fs.files
    case ImportError(p, m) => Reaches(fs, roots, p) && p in fs.files && (fs.files[p] == Unreadable(m) || fs.files[p] == Unparsable(m))
    case _ => false
  }

  lemma WalkExtends(fs: FileSystem, roots: seq<Path>, w: seq<Path>, p: Path)
    requires WalkFrom(fs, roots, w) && p in Edges(fs, w[|w| - 1])
    ensures WalkFrom(fs, roots, w + [p])
  {}

  lemma WalkReaches(fs: FileSystem, roots: seq<Path>, stack: seq<Path>, p: Path)
    requires WalkFrom(fs, roots, stack + [p])
    ensures Reaches(fs, roots, p)
  {
    assert (stack + [p])[|stack + [p]| - 1] == p;
  }

  /** The repeated part of a stack is a cycle. */
  lemma StackCycle(fs: FileSystem, roots: seq<Path>, stack: seq<Path>, path: Path)
    requires WalkFrom(fs, roots, stack + [path]) && path in stack
    ensures var chain := stack[IndexOf(stack, path)..] + [path];
      IsCycle(fs, chain) && Reaches(fs, roots, chain[0])
  {
    var i, w := IndexOf(stack, path), stack + [path];
    assert stack[i..] + [path] == w[i..];
    assert WalkFrom(fs, roots, w[..i + 1]);
  }

  // ----- errors, and what is loaded -----

  /** An error is explained by the file system, and a success loads only reachable files. */
  lemma {:induction false} VisitIsSound(fs: FileSystem, roots: seq<Path>, path: Path, visited: set<Path>, stack: seq<Path>)
    requires WalkFrom(fs, roots, stack + [path])
    ensures match Visit(fs, path, visited, stack)
      case Err(e) => Explains(fs, roots, e)
      case Ok(order) => forall p :: p in order ==> Reaches(fs, roots, p)
    decreases Unstacked(fs, stack), 0
  {
    hide WalkFrom, Reaches, IsCycle, Edges, Elements;
    WalkReaches(fs, roots, stack, path);
    if path in stack {
      StackCycle(fs, roots, stack, path);
    } else if path !in visited && Readable(fs, path) {
      PushShrinks(fs, stack, path);
      forall q | q in Edges(fs, path)
        ensures WalkFrom(fs, roots, stack + [path] + [q])
      {
        WalkExtends(fs, roots, stack + [path], q);
      }
      VisitAllIsSound(fs, roots, Edges(fs, path), visited, stack + [path]);
    }
  }

  lemma {:induction false} VisitAllIsSound(fs: FileSystem, roots: seq<Path>, paths: seq<Path>, visited: set<Path>, stack: seq<Path>)
    requires forall p :: p in paths ==> WalkFrom(fs, roots, stack + [p])
    ensures match VisitAll(fs, paths, visited, stack)
      case Err(e) => Explains(fs, roots, e)
      case Ok(order) => forall p :: p in order ==> Reaches(fs, roots, p)
    decreases Unstacked(fs, stack), |paths|
  {
    if paths != [] {
      VisitIsSound(fs, roots, paths[0], visited, stack);
      var first := Visit(fs, paths[0], visited, stack);
      if first.Ok? {
        VisitAllIsSound(fs, roots, paths[1..], visited + Elements(first.value), stack);
      }
    }
  }

  // ----- the order -----

  /** A dependency order: no repetitions, nothing seen before, and every import comes earlier or was seen before. */
  ghost predicate Topological(fs: FileSystem, seen: set<Path>, order: seq<Path>) {
    && (forall i, j :: 0 <= i < j < |order| ==> order[i] != order[j])
    && (forall i :: 0 <= i < |order| ==> order[i] !in seen && Readable(fs, order[i]))
    && (forall i, q :: 0 <= i < |order| && q in Edges(fs, order[i]) ==> q in seen || q in order[..i])
  }

  lemma EarlierImport(fs: FileSystem, seen: set<Path>, order: seq<Path>, k: nat, q: Path)
    requires Topological(fs, seen, order) && k < |order| && q in Edges(fs, order[k])
    ensures q in seen || q in order[..k]
  {}

  lemma TopologicalConcat(fs: FileSystem, seen: set<Path>, a: seq<Path>, b: seq<Path>)
    requires Topological(fs, seen, a) && Topological(fs, seen + Elements(a), b)
    ensures Topological(fs, seen, a + b)
  {
    var c := a + b;
    forall i, q | 0 <= i < |c| && q in Edges(fs, c[i])
      ensures q in seen || q in c[..i]
    {
      if i < |a| {
        assert c[..i] == a[..i];
      } else {
        assert c[..i] == a + b[..i - |a|];
        assert b[i - |a|] == c[i];
      }
    }
  }

  lemma TopologicalSnoc(fs: FileSystem, seen: set<Path>, order: seq<Path>, p: Path)
    requires Topological(fs, seen, order) && p !in seen && p !in order && Readable(fs, p)
    requires forall q :: q in Edges(fs, p) ==> q in seen || q in order
    ensures Topological(fs, seen, order + [p])
  {
    assert Topological(fs, seen + Elements(order), [p]);
    TopologicalConcat(fs, seen, order, [p]);
  }

  lemma {:induction false} VisitIsTopological(fs: FileSystem, path: Path, visited: set<Path>, stack: seq<Path>)
    requires Visit(fs, path, visited, stack).Ok?
    ensures var order := Visit(fs, path, visited, stack).value;
      && Topological(fs, visited, order)
      && (path in visited || path in order)
      && (forall p :: p in order ==> p !in stack)
    decreases Unstacked(fs, stack), 0
  {
    if path !in visited {
      PushShrinks(fs, stack, path);
      VisitAllIsTopological(fs, Edges(fs, path), visited, stack + [path]);
      var inner := VisitAll(fs, Edges(fs, path), visited, stack + [path]).value;
      TopologicalSnoc(fs, visited, inner, path);
    }
  }

  lemma {:induction false} VisitAllIsTopological(fs: FileSystem, paths: seq<Path>, visited: set<Path>, stack: seq<Path>)
    requires VisitAll(fs, paths, visited, stack).Ok?
    ensures var order := VisitAll(fs, paths, visited, stack).value;
      && Topological(fs, visited, order)
      && (forall p :: p in paths ==> p in visited || p in order)
      && (forall p :: p in order ==> p !in stack)
    decreases Unstacked(fs, stack), |paths|
  {
    if paths != [] {
      VisitIsTopological(fs, paths[0], visited, stack);
      var first := Visit(fs, paths[0], visited, stack).value;
      VisitAllIsTopological(fs, paths[1..], visited + Elements(first), stack);
      var rest := VisitAll(fs, paths[1..], visited + Elements(first), stack).value;
      TopologicalConcat(fs, visited, first, rest);
      forall p | p in paths
        ensures p in visited || p in first + rest
      {
        if p != paths[0] {
          assert p in paths[1..];
        }
      }
    }
  }

  /** Everything reachable from files that a complete order holds is in the order. */
  lemma {:induction false} WalkStaysInOrder(fs: FileSystem, order: seq<Path>, w: seq<Path>, i: nat)
    requires Topological(fs, {}, order) && IsWalk(fs, w) && w[0] in order && i < |w|
    ensures w[i] in order
  {
    if i > 0 {
      WalkStaysInOrder(fs, order, w, i - 1);
      assert w[i] in Edges(fs, w[i - 1]);
      var k :| 0 <= k < |order| && order[k] == w[i - 1];
      EarlierImport(fs, {}, order, k, w[i]);
    }
  }

  /** Along imports the position in the order goes down, so no file reaches itself. */
  lemma {:induction false} WalkDescends(fs: FileSystem, order: seq<Path>, w: seq<Path>, k: nat, i: nat) returns (m: nat)
    requires Topological(fs, {}, order) && IsWalk(fs, w) && k < |order| && w[0] == order[k] && i < |w|
    ensures m < |order| && order[m] == w[i] && m + i <= k
  {
    if i == 0 {
      m := k;
    } else {
      var n := WalkDescends(fs, order, w, k, i - 1);
      assert w[i] in Edges(fs, order[n]);
      EarlierImport(fs, {}, order, n, w[i]);
      m :| 0 <= m < n && order[m] == w[i];
    }
  }

  /** The statements of the files, in order. */
  function Texts(fs: FileSystem, order: seq<Path>): (texts: seq<seq<Stmt>>)
    ensures |texts| == |order|
  {
    seq(|order|, i requires 0 <= i < |order| =>
      if order[i] in fs.files && fs.files[order[i]].Parsed? then fs.files[order[i]].statements else [])
  }

  lemma {:induction false} BodiesAreSplice(fs: FileSystem, order: seq<Path>)
    ensures IsSplice(Bodies(fs, order), Texts(fs, order))
  {
    hide IsSplice;
    if order == [] {
      NothingSpliced();
    } else {
      var n := |order| - 1;
      BodiesAreSplice(fs, order[..n]);
      assert Texts(fs, order) == Texts(fs, order[..n]) + [Texts(fs, order)[n]];
      SpliceSnoc(Bodies(fs, order[..n]), Texts(fs, order[..n]), Texts(fs, order)[n]);
      assert Bodies(fs, order[..n]) + [] == Bodies(fs, order[..n]);
    }
  }

  /**
   A successful expansion is the text of exactly the reachable files, each once and after all the files it imports,
   followed by the program's own text, statement by statement and without the imports.
   */
  lemma ExpansionIsTopological(fs: FileSystem, baseDir: Path, statements: seq<Stmt>, result: seq<Stmt>)
    requires var roots := Targets(fs, baseDir, ImportNames(statements));
      Expansion(fs, VisitAll(fs, roots, {}, []), Body(statements)) == Ok(result)
    ensures var roots := Targets(fs, baseDir, ImportNames(statements));
      exists order ::
        && result == Bodies(fs, order) + Body(statements)
        && IsSplice(result, Texts(fs, order) + [statements])
        && Topological(fs, {}, order)
        && (forall p :: p in order <==> Reaches(fs, roots, p))
    ensures forall s :: s in result ==> !s.Use?
  {
    hide IsSplice;
    var roots := Targets(fs, baseDir, ImportNames(statements));
    var order := VisitAll(fs, roots, {}, []).value;
    OrderIsReachable(fs, roots);
    BodyHasNoUse(statements);
    BodiesHaveNoUse(fs, order);
    BodiesAreSplice(fs, order);
    SpliceSnoc(Bodies(fs, order), Texts(fs, order), statements);
  }

  /** What a file imports is what its text names, seen from its own directory. */
  lemma EdgesAreText(fs: FileSystem, p: Path, q: Path)
    requires Readable(fs, p)
    ensures var statements := fs.files[p].statements;
      q in Edges(fs, p) <==> exists j :: 0 <= j < |statements| && statements[j].Use? && fs.resolve(fs.parent(p), statements[j].path) == q
  {
    var statements := fs.files[p].statements;
    var names := ImportNames(statements);
    var index := NamesAreText(statements);
    if q in Edges(fs, p) {
      var i :| 0 <= i < |names| && fs.resolve(fs.parent(p), names[i]) == q;
      assert statements[index[i]] == Use(names[i]);
    }
    if j :| 0 <= j < |statements| && statements[j].Use? && fs.resolve(fs.parent(p), statements[j].path) == q {
      var i :| 0 <= i < |index| && index[i] == j;
      assert Edges(fs, p)[i] == q;
    }
  }

  lemma {:induction false} VisitAllSplits(fs: FileSystem, a: seq<Path>, b: seq<Path>, visited: set<Path>, stack: seq<Path>)
    requires VisitAll(fs, a + b, visited, stack).Ok?
    ensures VisitAll(fs, a, visited, stack).Ok?
    ensures VisitAll(fs, a, visited, stack).value <= VisitAll(fs, a + b, visited, stack).value
    decreases |a|
  {
    if a != [] {
      hide Visit, Elements;
      assert (a + b)[0] == a[0] && (a + b)[1..] == a[1..] + b;
      VisitAllSplits(fs, a[1..], b, visited + Elements(Visit(fs, a[0], visited, stack).value), stack);
    }
  }

  /** Imports are loaded in text order: what the first n imports reach comes before everything else. */
  lemma EarlierImportsFirst(fs: FileSystem, roots: seq<Path>, n: nat)
    requires VisitAll(fs, roots, {}, []).Ok? && n <= |roots|
    ensures exists m: nat :: LoadedFirst(fs, VisitAll(fs, roots, {}, []).value, m, roots[..n])
  {
    hide VisitAll, Reaches;
    assert roots[..n] + roots[n..] == roots;
    VisitAllSplits(fs, roots[..n], roots[n..], {}, []);
    OrderIsReachable(fs, roots[..n]);
    var first := VisitAll(fs, roots[..n], {}, []).value;
    assert VisitAll(fs, roots, {}, []).value[..|first|] == first;
    assert LoadedFirst(fs, VisitAll(fs, roots, {}, []).value, |first|, roots[..n]);
  }

  /** The first m files are those that these roots reach. */
  ghost predicate LoadedFirst(fs: FileSystem, order: seq<Path>, m: nat, roots: seq<Path>) {
    m <= |order| && forall p :: p in order[..m] <==> Reaches(fs, roots, p)
  }

  lemma OrderIsReachable(fs: FileSystem, roots: seq<Path>)
    requires VisitAll(fs, roots, {}, []).Ok?
    ensures var order := VisitAll(fs, roots, {}, []).value;
      && Topological(fs, {}, order)
      && (forall p :: p in order <==> Reaches(fs, roots, p))
  {
    hide VisitAll;
    var order := VisitAll(fs, roots, {}, []).value;
    RootsAreWalks(fs, roots);
    VisitAllIsSound(fs, roots, roots, {}, []);
    VisitAllIsTopological(fs, roots, {}, []);
    forall p | Reaches(fs, roots, p)
      ensures p in order
    {
      var w :| WalkFrom(fs, roots, w) && w[|w| - 1] == p;
      WalkStaysInOrder(fs, order, w, |w| - 1);
    }
  }

  lemma RootsAreWalks(fs: FileSystem, roots: seq<Path>)
    ensures forall p :: p in roots ==> WalkFrom(fs, roots, [] + [p])
  {}

  lemma {:induction false} BodyHasNoUse(statements: seq<Stmt>)
    ensures forall s :: s in Body(statements) ==> !s.Use?
  {
    if statements != [] {
      BodyHasNoUse(statements[..|statements| - 1]);
    }
  }

  lemma {:induction false} BodiesHaveNoUse(fs: FileSystem, order: seq<Path>)
    ensures forall s :: s in Bodies(fs, order) ==> !s.Use?
  {
    if order != [] {
      BodiesHaveNoUse(fs, order[..|order| - 1]);
      var last := order[|order| - 1];
      if Readable(fs, last) {
        BodyHasNoUse(fs.files[last].statements);
      }
    }
  }

  /** Every reachable file can be read and parsed, and no reachable file reaches itself. */
  ghost predicate WellFormed(fs: FileSystem, roots: seq<Path>) {
    && (forall p :: Reaches(fs, roots, p) ==> Readable(fs, p))
    && (forall w :: IsCycle(fs, w) ==> !Reaches(fs, roots, w[0]))
  }

  /** Expansion succeeds exactly on well-formed import graphs, and otherwise names a real fault. */
  lemma ExpansionSucceedsIffWellFormed(fs: FileSystem, roots: seq<Path>)
    ensures VisitAll(fs, roots, {}, []).Ok? <==> WellFormed(fs, roots)
    ensures VisitAll(fs, roots, {}, []).Err? ==> Explains(fs, roots, VisitAll(fs, roots, {}, []).error)
  {
    RootsAreWalks(fs, roots);
    VisitAllIsSound(fs, roots, roots, {}, []);
    if VisitAll(fs, roots, {}, []).Ok? {
      var order := VisitAll(fs, roots, {}, []).value;
      OrderIsReachable(fs, roots);
      forall w | IsCycle(fs, w)
        ensures !Reaches(fs, roots, w[0])
      {
        if Reaches(fs, roots, w[0]) {
          var k :| 0 <= k < |order| && order[k] == w[0];
          var m := WalkDescends(fs, order, w, k, |w| - 1);
        }
      }
    }
  }
}
