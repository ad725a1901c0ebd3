/**
 Import expansion: a depth-first walk with a stack and a visited set, which answers either the bodies of all
 reachable files in dependency order, or the reason why there is none.
 */
module Imports {
  import opened Wrappers
  import opened NexAst
  import opened ProgramText

  type Path = string

  datatype Source =
    | Unreadable(message: string)
    | Unparsable(message: string)
    | Parsed(statements: seq<Stmt>)

  /** The files that exist, and how an import name and a file's directory give a path. */
  datatype FileSystem = FileSystem(files: map<Path, Source>, resolve: (Path, string) -> Path, parent: Path -> Path)

  type Outcome = Result<seq<Stmt>, EvalError>

  // ----- files and their imports -----

  function Targets(fs: FileSystem, baseDir: Path, names: seq<string>): (ps: seq<Path>)
    ensures |ps| == |names|
  {
    seq(|names|, i requires 0 <= i < |names| => fs.resolve(baseDir, names[i]))
  }

  /** The files a file imports. */
  function Edges(fs: FileSystem, p: Path): seq<Path> {
    if p in fs.files && fs.files[p].Parsed? then Targets(fs, fs.parent(p), ImportNames(fs.files[p].statements)) else []
  }

  /** The bodies of some parsed files, in order. */
  function Bodies(fs: FileSystem, order: seq<Path>): seq<Stmt> {
    if order == [] then []
    else
      var last := order[|order| - 1];
      Bodies(fs, order[..|order| - 1]) + if last in fs.files && fs.files[last].Parsed? then Body(fs.files[last].statements) else []
  }

  lemma {:induction false} BodiesConcat(fs: FileSystem, a: seq<Path>, b: seq<Path>)
    ensures Bodies(fs, a + b) == Bodies(fs, a) + Bodies(fs, b)
    decreases |b|
  {
    if b == [] {
      assert a + b == a;
    } else {
      assert (a + b)[..|a + b| - 1] == a + b[..|b| - 1];
      BodiesConcat(fs, a, b[..|b| - 1]);
    }
  }

  // ----- the walk -----

  function Elements(ps: seq<Path>): set<Path> {
    set p | p in ps
  }

  /** How many files are not on the stack. */
  function Unstacked(fs: FileSystem, stack: seq<Path>): nat {
    |fs.files.Keys - Elements(stack)|
  }

  lemma PushShrinks(fs: FileSystem, stack: seq<Path>, p: Path)
    requires p in fs.files && p !in stack
    ensures Unstacked(fs, stack + [p]) < Unstacked(fs, stack)
  {
    assert Elements(stack + [p]) == Elements(stack) + {p};
    assert fs.files.Keys - Elements(stack + [p]) == (fs.files.Keys - Elements(stack)) - {p};
  }

  function IndexOf(stack: seq<Path>, p: Path): (i: nat)
    requires p in stack
    ensures i < |stack| && stack[i] == p && p !in stack[..i]
  {
    if stack[0] == p then 0 else 1 + IndexOf(stack[1..], p)
  }

  /** The files newly loaded for one import, in the order they are completed. */
  function Visit(fs: FileSystem, path: Path, visited: set<Path>, stack: seq<Path>): Result<seq<Path>, EvalError>
    decreases Unstacked(fs, stack), 0
  {
    if path in stack then Err(CircularImport(stack[IndexOf(stack, path)..] + [path]))
    else if path in visited then Ok([])
    else if path !in fs.files then Err(MissingImport(path))
    else
      match fs.files[path]
      case Unreadable(message) => Err(ImportError(path, message))
      case Unparsable(message) => Err(ImportError(path, message))
      case Parsed(_) =>
        PushShrinks(fs, stack, path);
        match VisitAll(fs, Edges(fs, path), visited, stack + [path])
        case Err(e) => Err(e)
        case Ok(order) => Ok(order + [path])
  }

  function VisitAll(fs: FileSystem, paths: seq<Path>, visited: set<Path>, stack: seq<Path>): Result<seq<Path>, EvalError>
    decreases Unstacked(fs, stack), |paths|
  {
    if paths == [] then Ok([])
    else
      match Visit(fs, paths[0], visited, stack)
      case Err(e) => Err(e)
      case Ok(first) =>
        match VisitAll(fs, paths[1..], visited + Elements(first), stack)
        case Err(e) => Err(e)
        case Ok(rest) => Ok(first + rest)
  }

  /** What expanding some statements should answer, given what the walk over their imports answers. */
  function Expansion(fs: FileSystem, walk: Result<seq<Path>, EvalError>, body: seq<Stmt>): Outcome {
    match walk
    case Err(e) => Err(e)
    case Ok(order) => Ok(Bodies(fs, order) + body)
  }

  function Loaded(visited: set<Path>, walk: Result<seq<Path>, EvalError>): set<Path> {
    match walk
    case Err(_) => visited
    case Ok(order) => visited + Elements(order)
  }

  class Expander {
    const fs: FileSystem
    var visited: set<Path>
    var stack: seq<Path>

    constructor (fs: FileSystem)
      ensures this.fs == fs && visited == {} && stack == []
    {
      this.fs := fs;
      visited, stack := {}, [];
    }

    /** Splice the bodies of all imports in front of the statements' own body. */
    method ExpandStatements(statements: seq<Stmt>, baseDir: Path) returns (r: Outcome)
      modifies this
      ensures stack == old(stack)
      ensures var walk := VisitAll(fs, Targets(fs, baseDir, ImportNames(statements)), old(visited), old(stack));
        && r == Expansion(fs, walk, Body(statements))
        && (walk.Ok? ==> visited == Loaded(old(visited), walk))
      ensures IsText(ImportNames(statements), Body(statements), statements)
      decreases Unstacked(fs, stack), 1
    {
      var imports: seq<string>, body: seq<Stmt> := [], [];
      for i := 0 to |statements|
        invariant imports == ImportNames(statements[..i]) && body == Body(statements[..i])
        invariant stack == old(stack) && visited == old(visited)
      {
        assert statements[..i + 1][..i] == statements[..i];
        match statements[i]
        case Use(path) => imports := imports + [path];
        case _ => body := body + [statements[i]];
      }
      assert statements[..|statements|] == statements;
      ProgramIsText(statements);
      hide IsText;

      ghost var targets := Targets(fs, baseDir, imports);
      ghost var order: seq<Path> := [];
      var expanded: seq<Stmt> := [];
      ResumeStart(fs, targets, visited, stack);
      hide Visit, VisitAll, Bodies, Elements, Resumes;
      for i := 0 to |imports|
        invariant stack == old(stack) && visited == old(visited) + Elements(order)
        invariant expanded == Bodies(fs, order)
        invariant Resumes(fs, targets, i, order, old(visited), stack)
      {
        ResumeStep(fs, targets, i, order, old(visited), stack);
        ghost var walk := Visit(fs, targets[i], visited, stack);
        var path := fs.resolve(baseDir, imports[i]);
        var loaded := LoadImport(path);
        if loaded.Err? {
          return loaded;
        }
        BodiesConcat(fs, order, walk.value);
        expanded := expanded + loaded.value;
        order := order + walk.value;
      }
      ResumeDone(fs, targets, order, old(visited), stack);
      r := Ok(expanded + body);
    }

    method LoadImport(path: Path) returns (r: Outcome)
      modifies this
      ensures stack == old(stack)
      ensures var walk := Visit(fs, path, old(visited), old(stack));
        && (match walk case Err(e) => r == Err(e) case Ok(order) => r == Ok(Bodies(fs, order)))
        && (walk.Ok? ==> visited == Loaded(old(visited), walk))
      decreases Unstacked(fs, stack), 0
    {
      if path in stack {
        var start := IndexOf(stack, path);
        var chain := stack[start..] + [path];
        return Err(CircularImport(chain));
      }
      if path in visited {
        assert visited + Elements([]) == visited;
        return Ok([]);
      }
      if path !in fs.files {
        return Err(MissingImport(path));
      }
      match fs.files[path]
      case Unreadable(message) => r := Err(ImportError(path, message));
      case Unparsable(message) => r := Err(ImportError(path, message));
      case Parsed(statements) =>
        PushShrinks(fs, stack, path);
        stack := stack + [path];
        r := ExpandStatements(statements, fs.parent(path));
        stack := stack[..|stack| - 1];
        if r.Ok? {
          LastLoaded(fs, VisitAll(fs, Edges(fs, path), old(visited), old(stack) + [path]).value, path, old(visited));
          visited := visited + {path};
        }
    }
  }

  /** The walk over all targets is the order so far followed by the walk over the targets from i on. */
  ghost predicate Resumes(fs: FileSystem, targets: seq<Path>, i: nat, order: seq<Path>, visited: set<Path>, stack: seq<Path>) {
    && i <= |targets|
    && VisitAll(fs, targets, visited, stack) ==
       match VisitAll(fs, targets[i..], visited + Elements(order), stack)
       case Err(e) => Err(e)
       case Ok(rest) => Ok(order + rest)
  }

  lemma ResumeStart(fs: FileSystem, targets: seq<Path>, visited: set<Path>, stack: seq<Path>)
    ensures Resumes(fs, targets, 0, [], visited, stack)
    ensures visited + Elements([]) == visited && Bodies(fs, []) == []
  {
    assert targets[0..] == targets;
    assert visited + Elements([]) == visited;
    if VisitAll(fs, targets, visited, stack).Ok? {
      assert [] + VisitAll(fs, targets, visited, stack).value == VisitAll(fs, targets, visited, stack).value;
    }
  }

  lemma ResumeStep(fs: FileSystem, targets: seq<Path>, i: nat, order: seq<Path>, visited: set<Path>, stack: seq<Path>)
    requires i < |targets| && Resumes(fs, targets, i, order, visited, stack)
    ensures var walk := Visit(fs, targets[i], visited + Elements(order), stack);
      match walk
      case Err(e) => VisitAll(fs, targets, visited, stack) == Err(e)
      case Ok(first) =>
        && Elements(order + first) == Elements(order) + Elements(first)
        && visited + Elements(order) + Elements(first) == visited + Elements(order + first)
        && Resumes(fs, targets, i + 1, order + first, visited, stack)
  {
    var walk := Visit(fs, targets[i], visited + Elements(order), stack);
    assert targets[i..][0] == targets[i] && targets[i..][1..] == targets[i + 1..];
    if walk.Ok? {
      var first := walk.value;
      assert Elements(order + first) == Elements(order) + Elements(first);
      assert visited + Elements(order) + Elements(first) == visited + Elements(order + first);
      var rest := VisitAll(fs, targets[i + 1..], visited + Elements(order + first), stack);
      if rest.Ok? {
        assert order + (first + rest.value) == order + first + rest.value;
      }
    }
  }

  lemma ResumeDone(fs: FileSystem, targets: seq<Path>, order: seq<Path>, visited: set<Path>, stack: seq<Path>)
    requires Resumes(fs, targets, |targets|, order, visited, stack)
    ensures VisitAll(fs, targets, visited, stack) == Ok(order)
  {
    assert targets[|targets|..] == [] && order + [] == order;
  }

  lemma LastLoaded(fs: FileSystem, order: seq<Path>, path: Path, visited: set<Path>)
    requires path in fs.files && fs.files[path].Parsed?
    ensures Bodies(fs, order + [path]) == Bodies(fs, order) + Body(fs.files[path].statements)
    ensures visited + Elements(order + [path]) == visited + Elements(order) + {path}
  {
    assert (order + [path])[..|order|] == order;
    assert Elements(order + [path]) == Elements(order) + {path};
  }

  method ExpandProgram(fs: FileSystem, statements: seq<Stmt>, baseDir: Path) returns (r: Outcome)
    ensures r == Expansion(fs, VisitAll(fs, Targets(fs, baseDir, ImportNames(statements)), {}, []), Body(statements))
    ensures IsText(ImportNames(statements), Body(statements), statements)
  {
    var expander := new Expander(fs);
    r := expander.ExpandStatements(statements, baseDir);
  }
}
