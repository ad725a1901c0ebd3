/** Running a NEX program: expand its imports, then execute what remains. */
module Nex {
  import opened Wrappers
  import opened NexAst
  import opened ProgramText
  import opened Imports
  import opened ImportOrder
  import opened Evaluator

  /**
   A program runs exactly when its imports can be expanded, and then as the text of all files it reaches, each after
   the files it imports, followed by its own text.
   */
  method ExecuteInDir(ids: Ids, fs: FileSystem, statements: seq<Stmt>, baseDir: Path) returns (r: Stepped)
    ensures exists index :: NamesAt(ImportNames(statements), statements, index)
    ensures var roots := Targets(fs, baseDir, ImportNames(statements));
      if WellFormed(fs, roots) then
        exists order, program ::
          && Topological(fs, {}, order) && (forall p :: p in order <==> Reaches(fs, roots, p))
          && IsSplice(program, Texts(fs, order) + [statements]) && Expanded(program)
          && r == Run(ids, program)
      else r.Err? && Explains(fs, roots, r.error)
  {
    hide IsSplice, Run, Bodies;
    ghost var roots := Targets(fs, baseDir, ImportNames(statements));
    var expanded := ExpandProgram(fs, statements, baseDir);
    ExpansionSucceedsIffWellFormed(fs, roots);
    if expanded.Err? {
      return Err(expanded.error);
    }
    ExpansionIsTopological(fs, baseDir, statements, expanded.value);
    r := Execute(ids, expanded.value);
  }
}
