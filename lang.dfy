/** Expression trees and runtime values of the L32 dialect.
    The two refer to each other (a closure holds its body, a quoted literal holds a datum),
    so they live in one module. The L3 dialect's trees are the same without the two
    dictionary forms. */
module Lang {

  /** Compound expressions (CExp). */
  datatype CExp =
    | NumExp(n: int)
    | BoolExp(b: bool)
    | StrExp(s: string)
    | PrimOp(op: string)
    | VarRef(name: string)
    | LitExp(datum: Value)                                // a quoted datum
    | IfExp(test: CExp, consequent: CExp, alternative: CExp)
    | ProcExp(params: seq<string>, body: seq<CExp>)
    | AppExp(rator: CExp, rands: seq<CExp>)
    | LetExp(bindings: seq<Binding>, body: seq<CExp>)
    | DictExp(entries: seq<Binding>)                     // (dict (k e) ...), keys are identifiers
    | DictLitExp(litEntries: seq<DictLitEntry>)          // dictionary literal with datum keys

  /** A (name expression) pair: a `let` binding or an entry of a dictionary expression. */
  datatype Binding = Binding(name: string, val: CExp)

  datatype DictLitEntry = DictLitEntry(key: Value, value: CExp)

  /** Top-level forms of a program. */
  datatype Exp = Define(name: string, val: CExp) | Expr(exp: CExp)

  datatype Program = Program(exps: seq<Exp>)

  /** The expression of a top-level form: a definition's value, or the expression itself. */
  function FormExp(x: Exp): CExp
  {
    match x
    case Define(_, val) => val
    case Expr(e) => e
  }

  /** Runtime values. Numbers are integers. */
  datatype Value =
    | Num(n: int)
    | Bool(b: bool)
    | Str(s: string)
    | Symbol(name: string)
    | Empty                                               // the empty list '()
    | Pair(car: Value, cdr: Value)                        // a compound s-expression
    | Closure(params: seq<string>, body: seq<CExp>)       // no captured environment
    | Prim(op: string)                                    // a primitive operator used as a value
    | DictValue(entries: seq<DictEntryValue>)
    | Node(exp: CExp)          // an expression node stored where a datum is expected (unchecked cast)
    | Undefined                // the host's `undefined`, read from an argument index out of range

  datatype DictEntryValue = DictEntryValue(key: Value, value: Value)

  // Sizes, used as termination measures by the evaluator and the tree walks.

  function Size(e: CExp): (r: nat)
    ensures r >= 1
  {
    match e
    case IfExp(t, c, a) => 1 + Size(t) + Size(c) + Size(a)
    case ProcExp(_, body) => 1 + SizeList(body)
    case AppExp(rator, rands) => 1 + Size(rator) + SizeList(rands)
    case LetExp(bs, body) => 1 + SizeBindings(bs) + SizeList(body)
    case DictExp(bs) => 1 + SizeBindings(bs)
    case DictLitExp(es) => 1 + SizeLitEntries(es)
    case _ => 1
  }

  function SizeList(es: seq<CExp>): nat
  {
    if es == [] then 0 else Size(es[0]) + SizeList(es[1..])
  }

  function SizeBindings(bs: seq<Binding>): nat
  {
    if bs == [] then 0 else Size(bs[0].val) + SizeBindings(bs[1..])
  }

  function SizeLitEntries(es: seq<DictLitEntry>): nat
  {
    if es == [] then 0 else SizeLitEntry(es[0]) + SizeLitEntries(es[1..])
  }

  function SizeLitEntry(en: DictLitEntry): nat
  {
    Size(en.value)
  }

  function SizeExp(x: Exp): nat
  {
    match x
    case Define(_, v) => 1 + Size(v)
    case Expr(e) => 1 + Size(e)
  }

  function SizeExps(xs: seq<Exp>): nat
  {
    if xs == [] then 0 else SizeExp(xs[0]) + SizeExps(xs[1..])
  }
}
