/** What each statement of a NEX program does to the bindings and the trace, read off the program's text. */
module StatementEffects {
  import opened Wrappers
  import opened NexAst
  import opened ProgramText
  import opened Evaluator
  import opened EvidenceFlow

  // ----- conditions -----

  /** A comparison of the weakest strength among some sources, asked of the sources themselves. */
  ghost predicate SourcesMeet(program: seq<Stmt>, feeds: set<nat>, c: Comparator, required: Strength) {
    && (forall i :: i in feeds ==> IsSource(program, i))
    && match c
       case Gte => forall i :: i in feeds ==> Rank(Given(program, i)) >= Rank(required)
       case Gt => forall i :: i in feeds ==> Rank(Given(program, i)) > Rank(required)
       case Lte => exists i :: i in feeds && Rank(Given(program, i)) <= Rank(required)
       case Lt => exists i :: i in feeds && Rank(Given(program, i)) < Rank(required)
       case Eq =>
         && (forall i :: i in feeds ==> Rank(Given(program, i)) >= Rank(required))
         && (exists i :: i in feeds && Given(program, i) == required)
  }

  ghost predicate BindingMeets(program: seq<Stmt>, f: Flow, id: string, c: Comparator, required: Strength) {
    id in f.feeds && SourcesMeet(program, f.feeds[id], c, required)
  }

  ghost predicate RightSideMeets(program: seq<Stmt>, f: Flow, c: Condition) {
    && c.rightId.Some? && c.rightComparator.Some? && c.rightStrength2.Some?
    && BindingMeets(program, f, c.rightId.value, c.rightComparator.value, c.rightStrength2.value)
  }

  /** A condition about an unbound identifier is never met, even with an alternative. */
  ghost predicate ConditionInText(program: seq<Stmt>, f: Flow, c: Condition) {
    && c.leftId in f.feeds
    && match c.op
       case None => BindingMeets(program, f, c.leftId, c.comparator, c.rightStrength)
       case Some(And) => BindingMeets(program, f, c.leftId, c.comparator, c.rightStrength) && RightSideMeets(program, f, c)
       case Some(Or) => BindingMeets(program, f, c.leftId, c.comparator, c.rightStrength) || RightSideMeets(program, f, c)
  }

  lemma ComparesAsInText(program: seq<Stmt>, feeds: set<nat>, s: Strength, c: Comparator, required: Strength)
    requires IsMinimum(program, feeds, s)
    ensures Compare(c, s, required) <==> SourcesMeet(program, feeds, c, required)
  {
    var w :| w in feeds && IsSource(program, w) && Given(program, w) == s;
    RanksAreDistinct(s, required);
  }

  lemma RanksAreDistinct(a: Strength, b: Strength)
    ensures Rank(a) == Rank(b) ==> a == b
  {}

  lemma ConditionReadsText(program: seq<Stmt>, m: Machine, f: Flow, c: Condition)
    requires Agrees(program, m, f)
    ensures EvaluateCondition(c, m.working) <==> ConditionInText(program, f, c)
  {
    hide Compare, SourcesMeet, IsMinimum;
    if c.leftId in m.working {
      ComparesAsInText(program, f.feeds[c.leftId], m.working[c.leftId].strength, c.comparator, c.rightStrength);
      if c.rightId.Some? && c.rightComparator.Some? && c.rightStrength2.Some? && c.rightId.value in m.working {
        var id := c.rightId.value;
        ComparesAsInText(program, f.feeds[id], m.working[id].strength, c.rightComparator.value, c.rightStrength2.value);
      }
    }
  }

  // ----- blocks -----

  const CONDITION_MET: Option<string> := Some("ConditionalMet")

  /** The entry of an action; a granted one gives the reason met, a denied one that it was denied. */
  predicate IsActionFor(ids: Ids, met: Option<string>, e: Entry, s: Stmt) {
    && s.Act? && e.ActionView? && e.id == s.id && e.action == s.action && e.required == s.requiredStrength
    && e.decisionId == ids.decision(s.id, s.action, s.requiredStrength)
    && e.reason == if e.granted then met else Some("ActionDenied")
  }

  /** The entries are those of the actions at these indices, which are all actions of the block. */
  ghost predicate ActsAt(ids: Ids, added: seq<Entry>, body: seq<Stmt>, index: seq<nat>) {
    && |index| == |added| && Increasing(index, |body|)
    && (forall k :: 0 <= k < |added| ==> IsActionFor(ids, CONDITION_MET, added[k], body[index[k]]))
    && (forall j :: 0 <= j < |body| && body[j].Act? ==> j in index)
  }

  /** One entry per action of the block, in text order. */
  ghost predicate AreActsOf(ids: Ids, added: seq<Entry>, body: seq<Stmt>) {
    exists index :: ActsAt(ids, added, body, index)
  }

  lemma {:induction false} BlockTracesActs(ids: Ids, body: seq<Stmt>, m: Machine)
    requires Block(ids, body, m).Ok?
    ensures m.entries <= Block(ids, body, m).value.entries
    ensures AreActsOf(ids, Block(ids, body, m).value.entries[|m.entries|..], body)
    decreases |body|
  {
    if body == [] {
      assert m.entries[|m.entries|..] == [];
      assert ActsAt(ids, [], body, []);
    } else {
      hide AreActsOf;
      var n := |body| - 1;
      BlockTracesActs(ids, body[..n], m);
      var before, after := Block(ids, body[..n], m).value, Block(ids, body, m).value;
      var added := before.entries[|m.entries|..];
      if body[n].Act? {
        var e := after.entries[|before.entries|];
        assert after.entries[|m.entries|..] == added + [e];
        ActsSnoc(ids, added, body, [e]);
      } else {
        assert after.entries == before.entries;
        ActsSnoc(ids, added, body, []);
        assert added + [] == added;
      }
    }
  }

  lemma ActsSnoc(ids: Ids, added: seq<Entry>, body: seq<Stmt>, last: seq<Entry>)
    requires body != [] && AreActsOf(ids, added, body[..|body| - 1])
    requires if body[|body| - 1].Act? then |last| == 1 && IsActionFor(ids, CONDITION_MET, last[0], body[|body| - 1]) else last == []
    ensures AreActsOf(ids, added + last, body)
  {
    var n := |body| - 1;
    var index :| ActsAt(ids, added, body[..n], index);
    if body[n].Act? {
      OneMoreAct(ids, added, body, last[0], index);
      assert last == [last[0]];
    } else {
      NoMoreAct(ids, added, body, index);
      assert added + last == added;
    }
  }

  lemma OneMoreAct(ids: Ids, added: seq<Entry>, body: seq<Stmt>, last: Entry, index: seq<nat>)
    requires body != [] && ActsAt(ids, added, body[..|body| - 1], index) && IsActionFor(ids, CONDITION_MET, last, body[|body| - 1])
    ensures ActsAt(ids, added + [last], body, index + [|body| - 1])
  {
    hide IsActionFor;
    var n := |body| - 1;
    forall j | 0 <= j < |body| && body[j].Act?
      ensures j in index + [n]
    {
      assert j < n ==> body[..n][j] == body[j];
    }
  }

  lemma NoMoreAct(ids: Ids, added: seq<Entry>, body: seq<Stmt>, index: seq<nat>)
    requires body != [] && ActsAt(ids, added, body[..|body| - 1], index) && !body[|body| - 1].Act?
    ensures ActsAt(ids, added, body, index)
  {
    hide IsActionFor;
    var n := |body| - 1;
    forall j | 0 <= j < |body| && body[j].Act?
      ensures j in index
    {
      assert j < n && body[..n][j] == body[j];
    }
  }

  // ----- statements -----

  /** The value an expression stands for. */
  ghost predicate HasValue(expr: Expr, env: Env, v: Value) {
    match expr
    case IntLit(i) => v == I(i)
    case StrLit(s) => v == S(s)
    case Ident(id) => id in env && v == env[id].value
  }

  /** The sum as far as 64 bits hold it, or the text of the left followed by that of the right. */
  ghost predicate IsDerived(ty: Type, l: Value, r: Value, v: Value) {
    match ty
    case TypeI64 => l.I? && r.I? && v.I? && (v.i - (l.i + r.i)) % 0x1_0000_0000_0000_0000 == 0
    case TypeString => l.S? && r.S? && v == S(l.s + r.s)
  }

  /** The statement binds its identifier, and traces and remembers what it bound; nothing else changes. */
  ghost predicate Binds(m: Machine, m': Machine, id: string) {
    && id in m'.working && m'.working == m.working[id := m'.working[id]]
    && m'.entries == m.entries + [NodeView(id, m'.working[id])] && m'.subject == Some(m'.working[id])
  }

  ghost predicate KeepsBindings(m: Machine, m': Machine) {
    m'.working == m.working && m'.subject == m.subject && m.entries <= m'.entries
  }

  /** The n-th statement took the machine from m to m' as its text says, given what flows into each binding. */
  ghost predicate AsWritten(ids: Ids, program: seq<Stmt>, n: nat, m: Machine, m': Machine)
    requires n < |program|
  {
    var f := FlowOf(program[..n]);
    match program[n]
    case Node(id, expr, strength) =>
      && Binds(m, m', id) && m'.working[id].strength == strength && HasValue(expr, m.working, m'.working[id].value)
      && m'.working[id].nodeId == ids.node(id, m'.working[id].value)
    case Attest(id, _, _) =>
      Binds(m, m', id) && id in m.working && m'.working[id] == m.working[id].(strength := Anchored)
    case Derive(id, left, right, ty) =>
      && Binds(m, m', id) && left in m.working && right in m.working
      && IsDerived(ty, m.working[left].value, m.working[right].value, m'.working[id].value)
      && m'.working[id].nodeId == ids.derived(m.working[left].nodeId, m.working[right].nodeId)
    case Assert(id, min) =>
      && BindingMeets(program, f, id, Gte, min) && id in m.working
      && m' == m.(entries := m.entries + [NodeView(id, m.working[id])], subject := Some(m.working[id]))
    case Act(_, _, _) =>
      KeepsBindings(m, m') && |m'.entries| == |m.entries| + 1 && IsActionFor(ids, None, m'.entries[|m.entries|], program[n])
    case If(condition, thenBody, elseBody) =>
      KeepsBindings(m, m') &&
      var added := m'.entries[|m.entries|..];
      && (ConditionInText(program, f, condition) ==> AreActsOf(ids, added, thenBody))
      && (!ConditionInText(program, f, condition) ==> AreActsOf(ids, added, elseBody))
    case On => m' == m
    case ReactiveBlock(_) => m' == m
    case Use(_) => false
  }

  /** In every successful run, every statement does what its text says, a conditional exactly the block its condition picks. */
  lemma StatementDoesAsWritten(ids: Ids, program: seq<Stmt>, n: nat)
    requires Expanded(program) && Run(ids, program).Ok? && n < |program|
    ensures Run(ids, program[..n]).Ok? && Run(ids, program[..n + 1]).Ok?
    ensures AsWritten(ids, program, n, Run(ids, program[..n]).value, Run(ids, program[..n + 1]).value)
  {
    PrefixSucceeds(ids, program, n);
    PrefixSucceeds(ids, program, n + 1);
    assert program[..n + 1][..n] == program[..n];
    StrengthIsMinimum(ids, program[..n]);
    var m, f := Run(ids, program[..n]).value, FlowOf(program[..n]);
    AgreesExtends(program, n, m, f);
    hide Run, FlowOf;
    StepAsWritten(ids, program, n, m);
  }

  lemma StepAsWritten(ids: Ids, program: seq<Stmt>, n: nat, m: Machine)
    requires n < |program| && !program[n].Use? && Agrees(program, m, FlowOf(program[..n])) && Step(ids, program[n], m).Ok?
    ensures AsWritten(ids, program, n, m, Step(ids, program[n], m).value)
  {
    hide FlowOf, Agrees, Block, EvaluateCondition, ConditionInText, AreActsOf, MinStrength, BindingMeets;
    var f := FlowOf(program[..n]);
    match program[n] {
      case If(condition, thenBody, elseBody) =>
        ConditionReadsText(program, m, f, condition);
        var body := if EvaluateCondition(condition, m.working) then thenBody else elseBody;
        BlockTracesActs(ids, body, m);
        BlockOnlyActs(ids, body, m);
      case Assert(id, min) =>
        AssertedMeets(program, m, f, id, min);
      case _ =>
    }
  }

  lemma AssertedMeets(program: seq<Stmt>, m: Machine, f: Flow, id: string, min: Strength)
    requires Agrees(program, m, f) && id in m.working
    ensures AtLeast(m.working[id].strength, min) <==> BindingMeets(program, f, id, Gte, min)
  {
    ComparesAsInText(program, f.feeds[id], m.working[id].strength, Gte, min);
  }

  // ----- failures -----

  /** What an attestation is refused for: too few witnesses, then repeated ones, then no external reference. */
  ghost predicate AttestationLacks(ids: Ids, nodeId: Uuid, count: nat, external: bool, e: AttestError) {
    match e
    case NotEnoughWitnesses => count < 2
    case DuplicateWitnessId => count >= 2 && !DistinctWitnesses(ids, nodeId, count, external)
    case NoExternalReference => count >= 2 && DistinctWitnesses(ids, nodeId, count, external) && !external
  }

  /** The error is what the statement deserves in machine m, after the statements before it. */
  ghost predicate FailsAsWritten(ids: Ids, before: seq<Stmt>, s: Stmt, m: Machine, e: EvalError) {
    var f := FlowOf(before);
    match s
    case Node(_, expr, _) => expr.Ident? && expr.id !in m.working && e == UnknownIdentifier(expr.id)
    case Attest(id, count, external) =>
      if id !in m.working then e == UnknownIdentifier(id)
      else if m.working[id].strength != Signed then e == AttestationRequiresSigned(id, m.working[id].strength)
      else e.AttestationFailed? && e.id == id && AttestationLacks(ids, m.working[id].nodeId, count, external, e.source)
    case Derive(id, left, right, ty) =>
      if left !in m.working then e == UnknownIdentifier(left)
      else if right !in m.working then e == UnknownIdentifier(right)
      else
        var l, r := m.working[left].value, m.working[right].value;
        e == TypeMismatch(id, ty, l, r) && !(l.I? && r.I? && ty == TypeI64) && !(l.S? && r.S? && ty == TypeString)
    case Assert(id, min) =>
      if id !in f.feeds then e == UnknownIdentifier(id)
      else
        && (exists i :: i in f.feeds[id] && IsSource(before, i) && !AtLeast(Given(before, i), min))
        && e.AssertionFailed? && e.id == id && e.expected == min && IsMinimum(before, f.feeds[id], e.actual)
    case Act(id, _, _) => id !in m.working && m.subject.None? && e == UnknownIdentifier(id)
    case If(condition, thenBody, elseBody) =>
      SomeActFails(if ConditionInText(before, f, condition) then thenBody else elseBody, m, e)
    case _ => false
  }

  /** An action on an unbound identifier, with no subject to fall back on. */
  predicate ActsOnNothing(s: Stmt, m: Machine, e: EvalError) {
    s.Act? && s.id !in m.working && m.subject.None? && e == UnknownIdentifier(s.id)
  }

  predicate SomeActFails(body: seq<Stmt>, m: Machine, e: EvalError) {
    exists j :: 0 <= j < |body| && ActsOnNothing(body[j], m, e)
  }

  lemma {:induction false} BlockFailsAsWritten(ids: Ids, body: seq<Stmt>, m: Machine)
    requires Block(ids, body, m).Err?
    ensures SomeActFails(body, m, Block(ids, body, m).error)
    decreases |body|
  {
    var n := |body| - 1;
    if Block(ids, body[..n], m).Err? {
      BlockFailsAsWritten(ids, body[..n], m);
      var j :| 0 <= j < n && ActsOnNothing(body[..n][j], m, Block(ids, body[..n], m).error);
      assert body[j] == body[..n][j];
    } else {
      BlockOnlyActs(ids, body[..n], m);
      assert ActsOnNothing(body[n], m, Block(ids, body, m).error);
    }
  }

  lemma StepFailsAsWritten(ids: Ids, before: seq<Stmt>, s: Stmt, m: Machine)
    requires !s.Use? && Agrees(before, m, FlowOf(before)) && Step(ids, s, m).Err?
    ensures FailsAsWritten(ids, before, s, m, Step(ids, s, m).error)
  {
    hide FlowOf, Block, EvaluateCondition, ConditionInText, MinStrength, DistinctWitnesses, BindingMeets, IsMinimum, SomeActFails;
    var f := FlowOf(before);
    match s {
      case If(condition, thenBody, elseBody) =>
        ConditionReadsText(before, m, f, condition);
        var body := if EvaluateCondition(condition, m.working) then thenBody else elseBody;
        BlockFailsAsWritten(ids, body, m);
      case Assert(id, min) =>
        if id in m.working {
          MinimumMeets(before, f.feeds[id], m.working[id].strength, min);
        }
      case Node(_, _, _) =>
      case Attest(_, _, _) =>
      case Derive(_, _, _, _) =>
      case Act(_, _, _) =>
      case On =>
      case ReactiveBlock(_) =>
    }
  }

  /**
   A run that fails does so at the first statement that cannot do what it says, and with the error that statement
   deserves; so an assertion some source of which is too weak ends the run with that assertion's failure.
   */
  lemma {:induction false} RunFailsAsWritten(ids: Ids, program: seq<Stmt>) returns (n: nat)
    requires Expanded(program) && Run(ids, program).Err?
    ensures n < |program| && Run(ids, program[..n]).Ok?
    ensures FailsAsWritten(ids, program[..n], program[n], Run(ids, program[..n]).value, Run(ids, program).error)
    decreases |program|
  {
    hide Step, FailsAsWritten, Agrees;
    var last := |program| - 1;
    if Run(ids, program[..last]).Err? {
      n := RunFailsAsWritten(ids, program[..last]);
      assert program[..last][..n] == program[..n];
    } else {
      n := last;
      StrengthIsMinimum(ids, program[..n]);
      StepFailsAsWritten(ids, program[..n], program[n], Run(ids, program[..n]).value);
    }
  }
}
