/** Evaluation of an expanded NEX program, and where the strength of every binding comes from. */
module Evaluator {
  import opened Wrappers
  import opened NexAst

  type Uuid = string

  /** The identifier hashes of the source, as functions of what they hash. */
  datatype Ids = Ids(
    node: (string, Value) -> Uuid,
    derived: (Uuid, Uuid) -> Uuid,
    cosigner: (Uuid, nat, bool) -> Uuid,
    decision: (string, Action, Strength) -> Uuid)

  datatype State = State(nodeId: Uuid, value: Value, strength: Strength)

  type Env = map<string, State>

  datatype Entry =
    | NodeView(id: string, state: State)
    | ActionView(id: string, decisionId: Uuid, action: Action, required: Strength, actual: Strength, granted: bool, reason: Option<string>)

  datatype Machine = Machine(working: Env, entries: seq<Entry>, subject: Option<State>)

  const START: Machine := Machine(map[], [], None)

  type Stepped = Result<Machine, EvalError>

  // ----- strengths -----

  /** The 25-entry table of the weaker of two strengths. */
  function MinStrength(l: Strength, r: Strength): (m: Strength)
    ensures Rank(m) == if Rank(l) <= Rank(r) then Rank(l) else Rank(r)
  {
    match (l, r)
    case (Unverifiable, Unverifiable) => Unverifiable
    case (Unverifiable, Local) => Unverifiable
    case (Unverifiable, Witnessed) => Unverifiable
    case (Unverifiable, Signed) => Unverifiable
    case (Unverifiable, Anchored) => Unverifiable
    case (Local, Unverifiable) => Unverifiable
    case (Local, Local) => Local
    case (Local, Witnessed) => Local
    case (Local, Signed) => Local
    case (Local, Anchored) => Local
    case (Witnessed, Unverifiable) => Unverifiable
    case (Witnessed, Local) => Local
    case (Witnessed, Witnessed) => Witnessed
    case (Witnessed, Signed) => Witnessed
    case (Witnessed, Anchored) => Witnessed
    case (Signed, Unverifiable) => Unverifiable
    case (Signed, Local) => Local
    case (Signed, Witnessed) => Witnessed
    case (Signed, Signed) => Signed
    case (Signed, Anchored) => Signed
    case (Anchored, Unverifiable) => Unverifiable
    case (Anchored, Local) => Local
    case (Anchored, Witnessed) => Witnessed
    case (Anchored, Signed) => Signed
    case (Anchored, Anchored) => Anchored
  }

  // ----- the operations of one statement -----

  /** Two's complement addition of 64-bit integers. */
  function WrappingAdd(a: I64, b: I64): (r: I64)
    ensures (r - (a + b)) % 0x1_0000_0000_0000_0000 == 0
  {
    var sum := a + b;
    if sum >= 0x8000_0000_0000_0000 then sum - 0x1_0000_0000_0000_0000
    else if sum < -0x8000_0000_0000_0000 then sum + 0x1_0000_0000_0000_0000
    else sum
  }

  function ResolveExpr(expr: Expr, env: Env): Result<Value, EvalError> {
    match expr
    case IntLit(i) => Ok(I(i))
    case StrLit(s) => Ok(S(s))
    case Ident(id) => if id in env then Ok(env[id].value) else Err(UnknownIdentifier(id))
  }

  function BuildNode(ids: Ids, id: string, expr: Expr, strength: Strength, env: Env): Result<State, EvalError> {
    match ResolveExpr(expr, env)
    case Err(e) => Err(e)
    case Ok(value) => Ok(State(ids.node(id, value), value, strength))
  }

  predicate DistinctWitnesses(ids: Ids, nodeId: Uuid, count: nat, external: bool) {
    forall i, j :: 0 <= i < j < count ==> ids.cosigner(nodeId, i, external) != ids.cosigner(nodeId, j, external)
  }

  /** Witnesses are only asked for on a Signed binding; two distinct ones with an external reference anchor it. */
  function AttestNode(ids: Ids, id: string, current: State, count: nat, external: bool): Result<State, EvalError> {
    if current.strength != Signed then Err(AttestationRequiresSigned(id, current.strength))
    else if count < 2 then Err(AttestationFailed(id, NotEnoughWitnesses))
    else if !DistinctWitnesses(ids, current.nodeId, count, external) then Err(AttestationFailed(id, DuplicateWitnessId))
    else if !external then Err(AttestationFailed(id, NoExternalReference))
    else Ok(current.(strength := Anchored))
  }

  function DeriveNode(ids: Ids, id: string, l: State, r: State, ty: Type): Result<State, EvalError> {
    var nodeId, strength := ids.derived(l.nodeId, r.nodeId), MinStrength(l.strength, r.strength);
    match (ty, l.value, r.value)
    case (TypeI64, I(a), I(b)) => Ok(State(nodeId, I(WrappingAdd(a, b)), strength))
    case (TypeString, S(a), S(b)) => Ok(State(nodeId, S(a + b), strength))
    case _ => Err(TypeMismatch(id, ty, l.value, r.value))
  }

  function Compare(c: Comparator, a: Strength, b: Strength): bool {
    match c
    case Gte => Rank(a) >= Rank(b)
    case Lte => Rank(a) <= Rank(b)
    case Gt => Rank(a) > Rank(b)
    case Lt => Rank(a) < Rank(b)
    case Eq => a == b
  }

  predicate EvaluateCondition(c: Condition, env: Env) {
    c.leftId in env
    && var left := Compare(c.comparator, env[c.leftId].strength, c.rightStrength);
       match c.op
       case None => left
       case Some(op) =>
         var right :=
           && c.rightComparator.Some? && c.rightStrength2.Some?
           && c.rightId.Some? && c.rightId.value in env
           && Compare(c.rightComparator.value, env[c.rightId.value].strength, c.rightStrength2.value);
         if op.And? then left && right else left || right
  }

  /** The binding an action is about: its own, or else the current subject. */
  function ActedOn(m: Machine, id: string): Option<State> {
    if id in m.working then Some(m.working[id]) else m.subject
  }

  function Decide(ids: Ids, id: string, action: Action, required: Strength, actual: Strength, met: Option<string>): Entry {
    var granted := AtLeast(actual, required);
    ActionView(id, ids.decision(id, action, required), action, required, actual, granted, if granted then met else Some("ActionDenied"))
  }

  function Bind(m: Machine, id: string, state: State): Machine {
    Machine(m.working[id := state], m.entries + [NodeView(id, state)], Some(state))
  }

  /** Only actions inside a conditional block are executed. */
  function BlockStep(ids: Ids, stmt: Stmt, m: Machine): Stepped {
    match stmt
    case Act(id, action, required) =>
      (match ActedOn(m, id)
       case None => Err(UnknownIdentifier(id))
       case Some(s) => Ok(m.(entries := m.entries + [Decide(ids, id, action, required, s.strength, Some("ConditionalMet"))])))
    case _ => Ok(m)
  }

  function Block(ids: Ids, body: seq<Stmt>, m: Machine): Stepped {
    if body == [] then Ok(m)
    else
      match Block(ids, body[..|body| - 1], m)
      case Err(e) => Err(e)
      case Ok(m') => BlockStep(ids, body[|body| - 1], m')
  }

  function Step(ids: Ids, stmt: Stmt, m: Machine): Stepped
    requires !stmt.Use?
  {
    match stmt
    case ReactiveBlock(_) => Ok(m)
    case On => Ok(m)
    case Node(id, expr, strength) =>
      (match BuildNode(ids, id, expr, strength, m.working)
       case Err(e) => Err(e)
       case Ok(s) => Ok(Bind(m, id, s)))
    case Attest(id, count, external) =>
      if id !in m.working then Err(UnknownIdentifier(id))
      else
        (match AttestNode(ids, id, m.working[id], count, external)
         case Err(e) => Err(e)
         case Ok(s) => Ok(Bind(m, id, s)))
    case Derive(id, left, right, ty) =>
      if left !in m.working then Err(UnknownIdentifier(left))
      else if right !in m.working then Err(UnknownIdentifier(right))
      else
        (match DeriveNode(ids, id, m.working[left], m.working[right], ty)
         case Err(e) => Err(e)
         case Ok(s) => Ok(Bind(m, id, s)))
    case Assert(id, min) =>
      if id !in m.working then Err(UnknownIdentifier(id))
      else if !AtLeast(m.working[id].strength, min) then Err(AssertionFailed(id, m.working[id].strength, min))
      else Ok(m.(entries := m.entries + [NodeView(id, m.working[id])], subject := Some(m.working[id])))
    case Act(id, action, required) =>
      (match ActedOn(m, id)
       case None => Err(UnknownIdentifier(id))
       case Some(s) => Ok(m.(entries := m.entries + [Decide(ids, id, action, required, s.strength, None)])))
    case If(condition, thenBody, elseBody) =>
      Block(ids, if EvaluateCondition(condition, m.working) then thenBody else elseBody, m)
  }

  predicate Expanded(program: seq<Stmt>) {
    forall i :: 0 <= i < |program| ==> !program[i].Use?
  }

  function Run(ids: Ids, program: seq<Stmt>): Stepped
    requires Expanded(program)
  {
    if program == [] then Ok(START)
    else
      match Run(ids, program[..|program| - 1])
      case Err(e) => Err(e)
      case Ok(m) => Step(ids, program[|program| - 1], m)
  }

  // ----- the evaluator -----

  /** Execute an expanded program statement by statement; the first error ends the run. */
  method Execute(ids: Ids, program: seq<Stmt>) returns (r: Stepped)
    requires Expanded(program)
    ensures r == Run(ids, program)
  {
    var m := START;
    for i := 0 to |program|
      invariant Run(ids, program[..i]) == Ok(m)
    {
      assert program[..i + 1][..i] == program[..i];
      var stepped := ExecuteStatement(ids, program[i], m);
      if stepped.Err? {
        FirstErrorWins(ids, program, i + 1);
        return stepped;
      }
      m := stepped.value;
    }
    assert program[..|program|] == program;
    r := Ok(m);
  }

  method ExecuteStatement(ids: Ids, stmt: Stmt, m: Machine) returns (r: Stepped)
    requires !stmt.Use?
    ensures r == Step(ids, stmt, m)
  {
    if !stmt.If? {
      return Step(ids, stmt, m);
    }
    var body := if EvaluateCondition(stmt.condition, m.working) then stmt.thenBody else stmt.elseBody;
    var current := m;
    for i := 0 to |body|
      invariant Block(ids, body[..i], m) == Ok(current)
    {
      assert body[..i + 1][..i] == body[..i];
      var stepped := BlockStep(ids, body[i], current);
      if stepped.Err? {
        BlockErrorWins(ids, body, m, i + 1);
        return stepped;
      }
      current := stepped.value;
    }
    assert body[..|body|] == body;
    r := Ok(current);
  }

  lemma {:induction false} FirstErrorWins(ids: Ids, program: seq<Stmt>, i: nat)
    requires Expanded(program) && i <= |program| && Run(ids, program[..i]).Err?
    ensures Run(ids, program) == Run(ids, program[..i])
    decreases |program| - i
  {
    if i == |program| {
      assert program[..i] == program;
    } else {
      assert program[..i + 1][..i] == program[..i];
      FirstErrorWins(ids, program, i + 1);
    }
  }

  lemma {:induction false} BlockErrorWins(ids: Ids, body: seq<Stmt>, m: Machine, i: nat)
    requires i <= |body| && Block(ids, body[..i], m).Err?
    ensures Block(ids, body, m) == Block(ids, body[..i], m)
    decreases |body| - i
  {
    if i == |body| {
      assert body[..i] == body;
    } else {
      assert body[..i + 1][..i] == body[..i];
      BlockErrorWins(ids, body, m, i + 1);
    }
  }
}
