/** Where the strength of every binding, and so every granted action, comes from. */
module EvidenceFlow {
  import opened Wrappers
  import opened NexAst
  import opened Evaluator

  /** For each binding, and for the current subject, the statements whose evidence flows into it. */
  datatype Flow = Flow(feeds: map<string, set<nat>>, subject: set<nat>)

  /** Read off the program text alone: declarations and attestations are sources, derivations join. */
  function FlowOf(program: seq<Stmt>): Flow {
    if program == [] then Flow(map[], {})
    else
      var n := |program| - 1;
      var f := FlowOf(program[..n]);
      match program[n]
      case Node(id, _, _) => Flow(f.feeds[id := {n}], {n})
      case Attest(id, _, _) => Flow(f.feeds[id := {n}], {n})
      case Derive(id, l, r, _) =>
        if l in f.feeds && r in f.feeds then Flow(f.feeds[id := f.feeds[l] + f.feeds[r]], f.feeds[l] + f.feeds[r]) else f
      case Assert(id, _) => if id in f.feeds then f.(subject := f.feeds[id]) else f
      case _ => f
  }

  /** The statements an action on id relies on. */
  function Relied(f: Flow, id: string): set<nat> {
    if id in f.feeds then f.feeds[id] else f.subject
  }

  predicate IsSource(program: seq<Stmt>, i: nat) {
    i < |program| && (program[i].Node? || program[i].Attest?)
  }

  /** The strength a source contributes: as declared, or Anchored by attestation. */
  function Given(program: seq<Stmt>, i: nat): Strength
    requires IsSource(program, i)
  {
    if program[i].Node? then program[i].strength else Anchored
  }

  /** s is the weakest strength that the sources in feeds contribute. */
  ghost predicate IsMinimum(program: seq<Stmt>, feeds: set<nat>, s: Strength) {
    && (forall i :: i in feeds ==> IsSource(program, i) && AtLeast(Given(program, i), s))
    && (exists i :: i in feeds && IsSource(program, i) && Given(program, i) == s)
  }

  lemma MinimumExtends(program: seq<Stmt>, n: nat, feeds: set<nat>, s: Strength)
    requires n <= |program| && IsMinimum(program[..n], feeds, s)
    ensures IsMinimum(program, feeds, s)
  {
    forall i | i in feeds
      ensures IsSource(program, i) && AtLeast(Given(program, i), s)
    {
      assert IsSource(program[..n], i);
    }
    var i :| i in feeds && IsSource(program[..n], i) && Given(program[..n], i) == s;
    assert IsSource(program, i) && Given(program, i) == s;
  }

  lemma MinimumJoins(program: seq<Stmt>, a: set<nat>, s: Strength, b: set<nat>, t: Strength)
    requires IsMinimum(program, a, s) && IsMinimum(program, b, t)
    ensures IsMinimum(program, a + b, MinStrength(s, t))
  {
    var i :| i in a && IsSource(program, i) && Given(program, i) == s;
    var j :| j in b && IsSource(program, j) && Given(program, j) == t;
    var k := if Rank(s) <= Rank(t) then i else j;
    assert k in a + b && Given(program, k) == MinStrength(s, t);
  }

  /** The machine and the flow name the same bindings, and every strength is the minimum over its sources. */
  ghost predicate Agrees(program: seq<Stmt>, m: Machine, f: Flow) {
    && m.working.Keys == f.feeds.Keys
    && (forall id :: id in m.working ==> IsMinimum(program, f.feeds[id], m.working[id].strength))
    && (m.subject.Some? ==> IsMinimum(program, f.subject, m.subject.value.strength))
  }

  lemma AgreesExtends(program: seq<Stmt>, n: nat, m: Machine, f: Flow)
    requires n <= |program| && Agrees(program[..n], m, f)
    ensures Agrees(program, m, f)
  {
    forall id | id in m.working
      ensures IsMinimum(program, f.feeds[id], m.working[id].strength)
    {
      MinimumExtends(program, n, f.feeds[id], m.working[id].strength);
    }
    if m.subject.Some? {
      MinimumExtends(program, n, f.subject, m.subject.value.strength);
    }
  }

  /** A conditional block only adds action entries, each decided on what its action relies on. */
  ghost predicate OnlyActs(m: Machine, m': Machine) {
    && m'.working == m.working && m'.subject == m.subject
    && m.entries <= m'.entries
    && forall k :: |m.entries| <= k < |m'.entries| ==>
        var e := m'.entries[k];
        && e.ActionView? && ActedOn(m, e.id).Some?
        && e.actual == ActedOn(m, e.id).value.strength
        && e.granted == AtLeast(e.actual, e.required)
  }

  lemma {:induction false} BlockOnlyActs(ids: Ids, body: seq<Stmt>, m: Machine)
    requires Block(ids, body, m).Ok?
    ensures OnlyActs(m, Block(ids, body, m).value)
    decreases |body|
  {
    if body != [] {
      BlockOnlyActs(ids, body[..|body| - 1], m);
    }
  }

  /** In every successful run, the strength of a binding is the minimum over all sources flowing into it. */
  lemma {:induction false} StrengthIsMinimum(ids: Ids, program: seq<Stmt>)
    requires Expanded(program) && Run(ids, program).Ok?
    ensures Agrees(program, Run(ids, program).value, FlowOf(program))
    decreases |program|
  {
    if program != [] {
      var n := |program| - 1;
      StrengthIsMinimum(ids, program[..n]);
      var m, f := Run(ids, program[..n]).value, FlowOf(program[..n]);
      AgreesExtends(program, n, m, f);
      StepAgrees(ids, program, m, f);
    }
  }

  lemma StepAgrees(ids: Ids, program: seq<Stmt>, m: Machine, f: Flow)
    requires program != [] && !program[|program| - 1].Use? && f == FlowOf(program[..|program| - 1])
    requires Agrees(program, m, f) && Step(ids, program[|program| - 1], m).Ok?
    ensures Agrees(program, Step(ids, program[|program| - 1], m).value, FlowOf(program))
  {
    hide IsMinimum, MinStrength, Block, EvaluateCondition, WrappingAdd;
    var n := |program| - 1;
    match program[n] {
      case Node(id, _, strength) =>
        OwnSource(program, n, strength);
        var s := BuildNode(ids, id, program[n].expr, strength, m.working).value;
        BindAgrees(program, m, f, id, s, {n});
      case Attest(id, count, external) =>
        OwnSource(program, n, Anchored);
        var s := AttestNode(ids, id, m.working[id], count, external).value;
        BindAgrees(program, m, f, id, s, {n});
      case Derive(id, l, r, ty) =>
        MinimumJoins(program, f.feeds[l], m.working[l].strength, f.feeds[r], m.working[r].strength);
        var s := DeriveNode(ids, id, m.working[l], m.working[r], ty).value;
        BindAgrees(program, m, f, id, s, f.feeds[l] + f.feeds[r]);
      case If(condition, thenBody, elseBody) =>
        BlockOnlyActs(ids, if EvaluateCondition(condition, m.working) then thenBody else elseBody, m);
      case Assert(_, _) =>
      case Act(_, _, _) =>
      case On =>
      case ReactiveBlock(_) =>
    }
  }

  lemma OwnSource(program: seq<Stmt>, n: nat, s: Strength)
    requires IsSource(program, n) && Given(program, n) == s
    ensures IsMinimum(program, {n}, s)
  {
    assert n in {n};
  }

  lemma BindAgrees(program: seq<Stmt>, m: Machine, f: Flow, id: string, s: State, feeds: set<nat>)
    requires Agrees(program, m, f) && IsMinimum(program, feeds, s.strength)
    ensures Agrees(program, Bind(m, id, s), Flow(f.feeds[id := feeds], feeds))
  {}

  /** Attestation happened to a Signed binding, with at least two distinct witnesses and an external reference. */
  lemma AttestationIsEarned(ids: Ids, program: seq<Stmt>, i: nat)
    requires Expanded(program) && Run(ids, program).Ok? && i < |program| && program[i].Attest?
    ensures Run(ids, program[..i]).Ok?
    ensures var m, id := Run(ids, program[..i]).value, program[i].id;
      id in m.working && m.working[id].strength == Signed
      && DistinctWitnesses(ids, m.working[id].nodeId, program[i].witnessCount, program[i].external)
    ensures program[i].witnessCount >= 2 && program[i].external
  {
    PrefixSucceeds(ids, program, i + 1);
    assert program[..i + 1][..i] == program[..i];
  }

  lemma PrefixSucceeds(ids: Ids, program: seq<Stmt>, i: nat)
    requires Expanded(program) && Run(ids, program).Ok? && i <= |program|
    ensures Run(ids, program[..i]).Ok?
  {
    if Run(ids, program[..i]).Err? {
      FirstErrorWins(ids, program, i);
    }
  }

  /**
   Every action decided by statement n, directly or in a conditional block, is granted exactly when every
   source it relies on meets the requirement.
   */
  lemma GrantedIffEverySourceMeets(ids: Ids, program: seq<Stmt>, n: nat, k: nat)
    requires Expanded(program) && Run(ids, program).Ok? && n < |program|
    requires Run(ids, program[..n]).Ok? && Run(ids, program[..n + 1]).Ok?
    requires |Run(ids, program[..n]).value.entries| <= k < |Run(ids, program[..n + 1]).value.entries|
    requires Run(ids, program[..n + 1]).value.entries[k].ActionView?
    ensures var e := Run(ids, program[..n + 1]).value.entries[k];
      && (forall i :: i in Relied(FlowOf(program[..n]), e.id) ==> IsSource(program, i))
      && (e.granted <==> forall i :: i in Relied(FlowOf(program[..n]), e.id) ==> AtLeast(Given(program, i), e.required))
  {
    hide FlowOf, Step, IsMinimum;
    var m, f := Run(ids, program[..n]).value, FlowOf(program[..n]);
    StrengthIsMinimum(ids, program[..n]);
    AgreesExtends(program, n, m, f);
    assert program[..n + 1][..n] == program[..n];
    StepDecides(ids, program[n], m, k);
    var e := Step(ids, program[n], m).value.entries[k];
    MinimumMeets(program, Relied(f, e.id), e.actual, e.required);
  }

  /** The weakest source meets a requirement exactly when all do. */
  lemma MinimumMeets(program: seq<Stmt>, feeds: set<nat>, s: Strength, required: Strength)
    requires IsMinimum(program, feeds, s)
    ensures forall i :: i in feeds ==> IsSource(program, i)
    ensures AtLeast(s, required) <==> forall i :: i in feeds ==> AtLeast(Given(program, i), required)
  {
    var w :| w in feeds && IsSource(program, w) && Given(program, w) == s;
  }

  lemma StepDecides(ids: Ids, stmt: Stmt, m: Machine, k: nat)
    requires !stmt.Use? && Step(ids, stmt, m).Ok?
    requires |m.entries| <= k < |Step(ids, stmt, m).value.entries| && Step(ids, stmt, m).value.entries[k].ActionView?
    ensures var e := Step(ids, stmt, m).value.entries[k];
      && ActedOn(m, e.id).Some?
      && e.actual == ActedOn(m, e.id).value.strength
      && e.granted == AtLeast(e.actual, e.required)
  {
    hide Block, EvaluateCondition, AttestNode, BuildNode, DeriveNode;
    if stmt.If? {
      BlockOnlyActs(ids, if EvaluateCondition(stmt.condition, m.working) then stmt.thenBody else stmt.elseBody, m);
    }
  }

  lemma StepExtends(ids: Ids, stmt: Stmt, m: Machine)
    requires !stmt.Use? && Step(ids, stmt, m).Ok?
    ensures m.entries <= Step(ids, stmt, m).value.entries
  {
    hide Block, EvaluateCondition, AttestNode, BuildNode, DeriveNode;
    if stmt.If? {
      BlockOnlyActs(ids, if EvaluateCondition(stmt.condition, m.working) then stmt.thenBody else stmt.elseBody, m);
    }
  }

  /** The trace only grows: what was traced at some statement is in the final trace, at the same place. */
  lemma {:induction false} TraceGrows(ids: Ids, program: seq<Stmt>, n: nat)
    requires Expanded(program) && Run(ids, program).Ok? && n <= |program|
    ensures Run(ids, program[..n]).Ok? && Run(ids, program[..n]).value.entries <= Run(ids, program).value.entries
    decreases |program|
  {
    hide Step;
    if n == |program| {
      assert program[..n] == program;
    } else {
      var before := program[..|program| - 1];
      assert before[..n] == program[..n];
      TraceGrows(ids, before, n);
      StepExtends(ids, program[|program| - 1], Run(ids, before).value);
    }
  }

  /** The statement that put an entry into the trace. */
  lemma {:induction false} TracedBy(ids: Ids, program: seq<Stmt>, k: nat) returns (n: nat)
    requires Expanded(program) && Run(ids, program).Ok? && k < |Run(ids, program).value.entries|
    ensures n < |program| && Run(ids, program[..n]).Ok? && Run(ids, program[..n + 1]).Ok?
    ensures |Run(ids, program[..n]).value.entries| <= k < |Run(ids, program[..n + 1]).value.entries|
    decreases |program|
  {
    hide Step;
    var last := |program| - 1;
    var before := program[..last];
    if |Run(ids, before).value.entries| <= k {
      n := last;
      assert program[..last + 1] == program;
    } else {
      n := TracedBy(ids, before, k);
      assert before[..n] == program[..n] && before[..n + 1] == program[..n + 1];
    }
  }

  /**
   In every successful run, every action in the trace was decided by some statement, and is granted exactly when
   every source that flowed into it by then meets its requirement; when it requires Anchored, those sources are
   anchored declarations and attestations with at least two witnesses and an external reference.
   */
  lemma EveryActionIsEarned(ids: Ids, program: seq<Stmt>, k: nat) returns (n: nat)
    requires Expanded(program) && Run(ids, program).Ok?
    requires k < |Run(ids, program).value.entries| && Run(ids, program).value.entries[k].ActionView?
    ensures n < |program|
    ensures var e := Run(ids, program).value.entries[k]; var sources := Relied(FlowOf(program[..n]), e.id);
      && (forall i :: i in sources ==> IsSource(program, i))
      && (e.granted <==> forall i :: i in sources ==> AtLeast(Given(program, i), e.required))
      && (e.granted && e.required == Anchored ==> forall i :: i in sources ==> Anchors(program[i]))
  {
    hide Run, FlowOf, Given, AtLeast;
    n := TracedBy(ids, program, k);
    TraceGrows(ids, program, n + 1);
    GrantedIffEverySourceMeets(ids, program, n, k);
    var e := Run(ids, program).value.entries[k];
    if e.granted && e.required == Anchored {
      forall i | i in Relied(FlowOf(program[..n]), e.id)
        ensures Anchors(program[i])
      {
        AnchoredSource(ids, program, i);
      }
    }
  }

  /** A declaration of anchored evidence, or an attestation by two witnesses and an external reference. */
  predicate Anchors(s: Stmt) {
    (s.Node? && s.strength == Anchored) || (s.Attest? && s.witnessCount >= 2 && s.external)
  }

  lemma AnchoredSource(ids: Ids, program: seq<Stmt>, i: nat)
    requires Expanded(program) && Run(ids, program).Ok? && IsSource(program, i) && AtLeast(Given(program, i), Anchored)
    ensures Anchors(program[i])
  {
    if program[i].Attest? {
      AttestationIsEarned(ids, program, i);
    }
  }

  /** The same at the statement that decides: an action that requires Anchored rests on nothing weaker. */
  lemma AnchoredGrantIsEarned(ids: Ids, program: seq<Stmt>, n: nat, k: nat, i: nat)
    requires Expanded(program) && Run(ids, program).Ok? && n < |program|
    requires Run(ids, program[..n]).Ok? && Run(ids, program[..n + 1]).Ok?
    requires |Run(ids, program[..n]).value.entries| <= k < |Run(ids, program[..n + 1]).value.entries|
    requires var e := Run(ids, program[..n + 1]).value.entries[k];
      e.ActionView? && e.granted && e.required == Anchored && i in Relied(FlowOf(program[..n]), e.id)
    ensures i < |program| && Anchors(program[i])
  {
    GrantedIffEverySourceMeets(ids, program, n, k);
    AnchoredSource(ids, program, i);
  }

  /** More bindings, and stronger evidence for those that were there. */
  ghost predicate Stronger(env: Env, env': Env) {
    forall id :: id in env ==> id in env' && AtLeast(env'[id].strength, env[id].strength)
  }

  predicate AsksAtLeast(c: Comparator) {
    c == Gte || c == Gt
  }

  /** A condition that asks only for minimal strengths, once met, stays met as evidence gets stronger. */
  lemma ConditionIsMonotone(c: Condition, env: Env, env': Env)
    requires AsksAtLeast(c.comparator) && (c.rightComparator.Some? ==> AsksAtLeast(c.rightComparator.value))
    requires Stronger(env, env') && EvaluateCondition(c, env)
    ensures EvaluateCondition(c, env')
  {
    hide Rank;
    ComparisonIsMonotone(c.comparator, env[c.leftId].strength, env'[c.leftId].strength, c.rightStrength);
    if c.rightId.Some? && c.rightId.value in env && c.rightComparator.Some? && c.rightStrength2.Some? {
      var l, l' := env[c.rightId.value].strength, env'[c.rightId.value].strength;
      ComparisonIsMonotone(c.rightComparator.value, l, l', c.rightStrength2.value);
    }
  }

  lemma ComparisonIsMonotone(c: Comparator, a: Strength, a': Strength, b: Strength)
    requires AsksAtLeast(c) && AtLeast(a', a)
    ensures Compare(c, a, b) ==> Compare(c, a', b)
  {}
}
