/** The syntax of NEX programs and the strengths of evidence they declare. */
module NexAst {
  import opened Wrappers

  datatype Strength = Unverifiable | Local | Witnessed | Signed | Anchored

  /** The declaration order of the strengths is their order. */
  function Rank(s: Strength): nat {
    match s
    case Unverifiable => 0
    case Local => 1
    case Witnessed => 2
    case Signed => 3
    case Anchored => 4
  }

  predicate AtLeast(a: Strength, b: Strength) {
    Rank(a) >= Rank(b)
  }

  type I64 = x: int | -0x8000_0000_0000_0000 <= x < 0x8000_0000_0000_0000

  datatype Value = I(i: I64) | S(s: string)

  datatype Expr = IntLit(i: I64) | StrLit(s: string) | Ident(id: string)

  datatype Type = TypeI64 | TypeString

  datatype Action = Allow | Deny | Escalate

  datatype Comparator = Gte | Lte | Gt | Lt | Eq

  datatype LogicalOp = And | Or

  datatype Condition = Condition(
    leftId: string, comparator: Comparator, rightStrength: Strength,
    op: Option<LogicalOp>,
    rightId: Option<string>, rightComparator: Option<Comparator>, rightStrength2: Option<Strength>)

  /** Reactive statements are carried along and never executed; their contents are not part of this model. */
  datatype Stmt =
    | Use(path: string)
    | Node(id: string, expr: Expr, strength: Strength)
    | Attest(id: string, witnessCount: nat, external: bool)
    | Derive(id: string, left: string, right: string, ty: Type)
    | Assert(id: string, min: Strength)
    | Act(id: string, action: Action, requiredStrength: Strength)
    | If(condition: Condition, thenBody: seq<Stmt>, elseBody: seq<Stmt>)
    | On
    | ReactiveBlock(body: seq<Stmt>)

  datatype AttestError = NotEnoughWitnesses | DuplicateWitnessId | NoExternalReference

  datatype EvalError =
    | UnknownIdentifier(id: string)
    | MissingImport(path: string)
    | CircularImport(chain: seq<string>)
    | ImportError(path: string, message: string)
    | AttestationRequiresSigned(id: string, actual: Strength)
    | AttestationFailed(id: string, source: AttestError)
    | AssertionFailed(id: string, actual: Strength, expected: Strength)
    | TypeMismatch(id: string, ty: Type, left: Value, right: Value)
}
