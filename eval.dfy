/** The L32 applicative-order evaluator: substitution-model procedure application,
    dictionary expressions evaluated eagerly into dictionary values, and dictionary values
    applied as one-argument lookup procedures. */
module Eval {
  import opened Results
  import opened Lang
  import opened Env
  import Primitives

  /** Collaborators the evaluator calls but that are not part of this model:
      alpha-renaming of a closure body, substitution of argument expressions for
      parameter names, the value printer, and the host arithmetic of the primitive table. */
  datatype Context = Context(
    host: Primitives.Host,
    rename: seq<CExp> -> seq<CExp>,
    substitute: (seq<CExp>, seq<string>, seq<CExp>) -> seq<CExp>,
    format: Value -> string)

  /** `fuel` bounds the number of nested closure applications; when it runs out the model
      reports OutOfFuel where the host would keep running. */
  function Eval(ctx: Context, e: CExp, env: Env, fuel: nat): Result<Value>
    decreases fuel, Size(e), 2
  {
    match e
    case NumExp(n) => Ok(Num(n))
    case BoolExp(b) => Ok(Bool(b))
    case StrExp(s) => Ok(Str(s))
    case PrimOp(op) => Ok(Prim(op))
    case VarRef(x) => ApplyEnv(env, x)
    case LitExp(d) => Ok(d)
    case IfExp(_, _, _) => EvalIf(ctx, e, env, fuel)
    case ProcExp(_, _) => EvalProc(e)
    case AppExp(rator, rands) =>
      var proc :- Eval(ctx, rator, env, fuel);
      var args :- EvalList(ctx, rands, env, fuel);
      ApplyProcedure(ctx, proc, args, env, fuel)
    case LetExp(_, _) => Failure(LetNotSupported)
    case DictExp(_) => EvalDict(ctx, e, env, fuel)
    case DictLitExp(_) => EvalDictLit(ctx, e, env, fuel)
  }

  /** Evaluates the operands left to right; the first failure wins. */
  function EvalList(ctx: Context, es: seq<CExp>, env: Env, fuel: nat): Result<seq<Value>>
    decreases fuel, SizeList(es), 3
  {
    if es == [] then Ok([])
    else
      var v :- Eval(ctx, es[0], env, fuel);
      var vs :- EvalList(ctx, es[1..], env, fuel);
      Ok([v] + vs)
  }

  /** Only the boolean `false` is false. */
  predicate IsTrueValue(v: Value)
  {
    v != Bool(false)
  }

  function EvalIf(ctx: Context, e: CExp, env: Env, fuel: nat): Result<Value>
    requires e.IfExp?
    decreases fuel, Size(e), 1
  {
    var test :- Eval(ctx, e.test, env, fuel);
    if IsTrueValue(test) then Eval(ctx, e.consequent, env, fuel)
    else Eval(ctx, e.alternative, env, fuel)
  }

  /** A procedure expression becomes a closure over its parameters and body, unevaluated. */
  function EvalProc(e: CExp): Result<Value>
    requires e.ProcExp?
  {
    Ok(Closure(e.params, e.body))
  }

  /** A dictionary expression: each binding's expression is evaluated in order and keyed by
      the symbol of the binding's name. */
  function EvalDict(ctx: Context, e: CExp, env: Env, fuel: nat): Result<Value>
    requires e.DictExp?
    decreases fuel, Size(e), 1
  {
    var entries :- EvalBindings(ctx, e.entries, env, fuel);
    Ok(DictValue(entries))
  }

  function EvalBindings(ctx: Context, bs: seq<Binding>, env: Env, fuel: nat): Result<seq<DictEntryValue>>
    decreases fuel, SizeBindings(bs), 3
  {
    if bs == [] then Ok([])
    else
      var v :- Eval(ctx, bs[0].val, env, fuel);
      var rest :- EvalBindings(ctx, bs[1..], env, fuel);
      Ok([DictEntryValue(Symbol(bs[0].name), v)] + rest)
  }

  /** A dictionary literal: each key is its datum, unevaluated; each value is evaluated. */
  function EvalDictLit(ctx: Context, e: CExp, env: Env, fuel: nat): Result<Value>
    requires e.DictLitExp?
    decreases fuel, Size(e), 1
  {
    var entries :- EvalLitEntries(ctx, e.litEntries, env, fuel);
    Ok(DictValue(entries))
  }

  function EvalLitEntries(ctx: Context, es: seq<DictLitEntry>, env: Env, fuel: nat): Result<seq<DictEntryValue>>
    decreases fuel, SizeLitEntries(es), 3
  {
    if es == [] then Ok([])
    else
      assert SizeLitEntries(es) == Size(es[0].value) + SizeLitEntries(es[1..]);
      var key :- Eval(ctx, LitExp(es[0].key), env, fuel);
      var value :- Eval(ctx, es[0].value, env, fuel);
      var rest :- EvalLitEntries(ctx, es[1..], env, fuel);
      Ok([DictEntryValue(key, value)] + rest)
  }

  function ApplyProcedure(ctx: Context, proc: Value, args: seq<Value>, env: Env, fuel: nat): Result<Value>
    decreases fuel, 0, 1
  {
    match proc
    case Prim(op) => Primitives.ApplyPrimitive(ctx.host, op, args)
    case Closure(params, body) => ApplyClosure(ctx, params, body, args, env, fuel)
    case DictValue(entries) => FindInDict(entries, args)
    case _ => Failure(NotApplicable)
  }

  /** Applying a dictionary value: one argument, looked up by deep equality, first entry wins. */
  function FindInDict(entries: seq<DictEntryValue>, args: seq<Value>): Result<Value>
  {
    if |args| == 1 then
      match FindEntry(entries, args[0])
      case Some(entry) => Ok(entry.value)
      case None => Failure(KeyNotFound)
    else Failure(ArityError)
  }

  /** `entries.find(e => deepEquals(e.key, key))` */
  function FindEntry(entries: seq<DictEntryValue>, key: Value): Option<DictEntryValue>
  {
    if entries == [] then None
    else if DeepEquals(entries[0].key, key) then Some(entries[0])
    else FindEntry(entries[1..], key)
  }

  /** The host's `typeof`: every s-expression, closure, primitive and dictionary is an object. */
  function TypeOf(v: Value): string
  {
    match v
    case Num(_) => "number"
    case Bool(_) => "boolean"
    case Str(_) => "string"
    case Undefined => "undefined"
    case _ => "object"
  }

  /** Structural equality: same host type, symbols by name, pairs component by component,
      anything else by the host's `===` (object identity, modelled as equality of values). */
  function DeepEquals(a: Value, b: Value): bool
  {
    TypeOf(a) == TypeOf(b) &&
    if a.Symbol? && b.Symbol? then a.name == b.name
    else if a.Pair? && b.Pair? then DeepEquals(a.car, b.car) && DeepEquals(a.cdr, b.cdr)
    else Primitives.StrictEquals(a, b)
  }

  /** Turns an argument value back into an expression for substitution into a closure body. */
  function ValueToLitExp(ctx: Context, v: Value): CExp
  {
    match v
    case Num(n) => NumExp(n)
    case Bool(b) => BoolExp(b)
    case Str(s) => StrExp(s)
    case Prim(op) => PrimOp(op)
    case Closure(params, body) => ProcExp(params, body)
    case DictValue(entries) =>
      DictLitExp(seq(|entries|, i requires 0 <= i < |entries| =>
        DictLitEntry(Symbol(ctx.format(entries[i].key)), ValueToLitExp(ctx, entries[i].value))))
    case _ => LitExp(v)
  }

  /** The closure body, alpha-renamed, with the argument expressions substituted for the
      parameters, evaluated as a sequence in the caller's environment. */
  function ApplyClosure(ctx: Context, params: seq<string>, body: seq<CExp>, args: seq<Value>, env: Env, fuel: nat): Result<Value>
    decreases fuel, 0, 0
  {
    if fuel == 0 then Failure(OutOfFuel)
    else
      var renamed := ctx.rename(body);
      var litArgs := seq(|args|, i requires 0 <= i < |args| => ValueToLitExp(ctx, args[i]));
      EvalSequence(ctx, Forms(ctx.substitute(renamed, params, litArgs)), env, fuel - 1)
  }

  /** Expressions as top-level forms. */
  function Forms(es: seq<CExp>): (r: seq<Exp>)
    ensures |r| == |es| && forall i :: 0 <= i < |es| ==> r[i] == Expr(es[i])
  {
    seq(|es|, i requires 0 <= i < |es| => Expr(es[i]))
  }

  /** Evaluates forms left to right; a `define` extends the environment of every later form;
      the value is that of the last form; no forms is a failure. */
  function EvalSequence(ctx: Context, s: seq<Exp>, env: Env, fuel: nat): Result<Value>
    decreases fuel, SizeExps(s), 4
  {
    if s == [] then Failure(EmptySequence)
    else
      match s[0]
      case Define(name, val) => EvalDefineExps(ctx, name, val, s[1..], env, fuel)
      case Expr(e) => EvalCExps(ctx, e, s[1..], env, fuel)
  }

  function EvalCExps(ctx: Context, first: CExp, rest: seq<Exp>, env: Env, fuel: nat): Result<Value>
    decreases fuel, Size(first) + 1 + SizeExps(rest), 3
  {
    if rest == [] then Eval(ctx, first, env, fuel)
    else
      var v :- Eval(ctx, first, env, fuel);
      EvalSequence(ctx, rest, env, fuel)
  }

  function EvalDefineExps(ctx: Context, name: string, val: CExp, rest: seq<Exp>, env: Env, fuel: nat): Result<Value>
    decreases fuel, Size(val) + 1 + SizeExps(rest), 3
  {
    var rhs :- Eval(ctx, val, env, fuel);
    EvalSequence(ctx, rest, MakeEnv(name, rhs, env), fuel)
  }

  /** A program is evaluated as a sequence from the empty environment. */
  function EvalProgram(ctx: Context, p: Program, fuel: nat): Result<Value>
  {
    EvalSequence(ctx, p.exps, EmptyEnv(), fuel)
  }

  // ================================================================ properties

  /** Number, boolean and string literals evaluate to themselves, a primitive reference to
      the primitive, a quoted literal to its datum, and a procedure expression to a closure
      over exactly its parameters and (unevaluated) body, in any environment. */
  lemma SelfEvaluating(ctx: Context, env: Env, fuel: nat, n: int, b: bool, s: string, op: string,
                       d: Value, params: seq<string>, body: seq<CExp>)
    ensures Eval(ctx, NumExp(n), env, fuel) == Ok(Num(n))
    ensures Eval(ctx, BoolExp(b), env, fuel) == Ok(Bool(b))
    ensures Eval(ctx, StrExp(s), env, fuel) == Ok(Str(s))
    ensures Eval(ctx, PrimOp(op), env, fuel) == Ok(Prim(op))
    ensures Eval(ctx, LitExp(d), env, fuel) == Ok(d)
    ensures Eval(ctx, ProcExp(params, body), env, fuel) == Ok(Closure(params, body))
  {
  }

  /** The printer renders a symbol as its name. */
  ghost predicate FormatsSymbolsByName(ctx: Context)
  {
    forall name :: ctx.format(Symbol(name)) == name
  }

  /** Every key of every dictionary nested in `v` (through dictionary values) is a symbol. */
  ghost predicate SymbolKeyed(v: Value)
  {
    match v
    case DictValue(entries) =>
      forall i :: 0 <= i < |entries| ==> entries[i].key.Symbol? && SymbolKeyed(entries[i].value)
    case _ => true
  }

  /** A dictionary keyed by the number 1 comes back from the substitution round trip keyed by
      the symbol of the printed number. */
  lemma NumberKeyBecomesSymbol(ctx: Context, env: Env, fuel: nat)
    ensures Eval(ctx, ValueToLitExp(ctx, DictValue([DictEntryValue(Num(1), Num(2))])), env, fuel)
            == Ok(DictValue([DictEntryValue(Symbol(ctx.format(Num(1))), Num(2))]))
  {
    var lits := [DictLitEntry(Symbol(ctx.format(Num(1))), NumExp(2))];
    var entries := [DictEntryValue(Num(1), Num(2))];
    assert ValueToLitExp(ctx, DictValue(entries)).litEntries[0] == lits[0];
    assert ValueToLitExp(ctx, DictValue(entries)) == DictLitExp(lits);
    EvalLitEntriesKeys(ctx, lits, env, fuel);
    var r := EvalLitEntries(ctx, lits, env, fuel).value;
    assert r == [r[0]];
  }

  /** Substitution round trip: the expression built from a value evaluates back to that value,
      for every value whose dictionary keys are symbols. The restriction is needed: a
      dictionary literal is rebuilt with every key replaced by the symbol of its printed form,
      so a key that is not a symbol comes back as a symbol (see NumberKeyBecomesSymbol). */
  lemma {:induction false} ValueToLitExpRoundTrip(ctx: Context, v: Value, env: Env, fuel: nat)
    requires FormatsSymbolsByName(ctx)
    requires SymbolKeyed(v)
    ensures Eval(ctx, ValueToLitExp(ctx, v), env, fuel) == Ok(v)
  {
    match v
    case DictValue(entries) =>
      var lits := seq(|entries|, i requires 0 <= i < |entries| =>
        DictLitEntry(Symbol(ctx.format(entries[i].key)), ValueToLitExp(ctx, entries[i].value)));
      assert ValueToLitExp(ctx, v) == DictLitExp(lits);
      forall i | 0 <= i < |entries|
        ensures Eval(ctx, lits[i].value, env, fuel) == Ok(entries[i].value)
      {
        ValueToLitExpRoundTrip(ctx, entries[i].value, env, fuel);
      }
      LitEntriesRoundTrip(ctx, entries, lits, env, fuel);
    case _ =>
  }

  /** Entry by entry: symbol keys print back to themselves and values evaluate back. */
  lemma {:induction false} LitEntriesRoundTrip(ctx: Context, entries: seq<DictEntryValue>, lits: seq<DictLitEntry>, env: Env, fuel: nat)
    requires FormatsSymbolsByName(ctx)
    requires |lits| == |entries|
    requires forall i :: 0 <= i < |entries| ==>
               entries[i].key.Symbol? && lits[i].key == Symbol(ctx.format(entries[i].key)) &&
               Eval(ctx, lits[i].value, env, fuel) == Ok(entries[i].value)
    ensures EvalLitEntries(ctx, lits, env, fuel) == Ok(entries)
  {
    if entries != [] {
      var e := entries[0];
      assert Symbol(ctx.format(e.key)) == e.key;
      LitEntriesRoundTrip(ctx, entries[1..], lits[1..], env, fuel);
      assert [e] + entries[1..] == entries;
    }
  }

  /** Only the boolean `false` selects the alternative: a test that evaluates to 0, the
      empty string or any other value selects the consequent. A failing test fails the `if`. */
  lemma IfOnlyFalseIsFalse(ctx: Context, t: CExp, c: CExp, a: CExp, env: Env, fuel: nat)
    ensures Eval(ctx, t, env, fuel) == Ok(Bool(false)) ==>
            Eval(ctx, IfExp(t, c, a), env, fuel) == Eval(ctx, a, env, fuel)
    ensures Eval(ctx, t, env, fuel).Ok? && Eval(ctx, t, env, fuel).value != Bool(false) ==>
            Eval(ctx, IfExp(t, c, a), env, fuel) == Eval(ctx, c, env, fuel)
    ensures Eval(ctx, t, env, fuel).Failure? ==>
            Eval(ctx, IfExp(t, c, a), env, fuel) == Failure(Eval(ctx, t, env, fuel).error)
  {
  }

  /** The conditional and the `not` primitive disagree on 0 and on the empty string:
      `(if 0 c a)` takes `c`, while `(not 0)` is true. */
  lemma IfAndNotDisagreeOnZero(ctx: Context, c: CExp, a: CExp, env: Env, fuel: nat)
    ensures Eval(ctx, IfExp(NumExp(0), c, a), env, fuel) == Eval(ctx, c, env, fuel)
    ensures Eval(ctx, IfExp(StrExp(""), c, a), env, fuel) == Eval(ctx, c, env, fuel)
    ensures Primitives.ApplyPrimitive(ctx.host, "not", [Num(0)]) == Ok(Bool(true))
    ensures Primitives.ApplyPrimitive(ctx.host, "not", [Str("")]) == Ok(Bool(true))
  {
    IfOnlyFalseIsFalse(ctx, NumExp(0), c, a, env, fuel);
    IfOnlyFalseIsFalse(ctx, StrExp(""), c, a, env, fuel);
  }

  /** Deep equality is equality of values: symbols compare by name and pairs component by
      component, so two separately built pairs of equal structure match. It is symmetric. */
  lemma {:induction false} DeepEqualsIsEquality(a: Value, b: Value)
    ensures DeepEquals(a, b) <==> a == b
    ensures DeepEquals(a, b) == DeepEquals(b, a)
  {
    if a.Pair? && b.Pair? {
      DeepEqualsIsEquality(a.car, b.car);
      DeepEqualsIsEquality(a.cdr, b.cdr);
    }
  }

  /** Deep equality recurses into pairs where `eq?` does not: two equal pairs are deep-equal
      but never `eq?`. */
  lemma DeepEqualsRecursesWhereEqDoesNot(x: Value, y: Value)
    ensures DeepEquals(Pair(x, y), Pair(x, y))
    ensures !Primitives.EqPrim([Pair(x, y), Pair(x, y)])
  {
    DeepEqualsIsEquality(Pair(x, y), Pair(x, y));
  }

  /** Entry `i` is the first whose key equals `key`. */
  ghost predicate FirstKey(entries: seq<DictEntryValue>, key: Value, i: int)
  {
    0 <= i < |entries| && entries[i].key == key &&
    forall j :: 0 <= j < i ==> entries[j].key != key
  }

  lemma {:induction false} FindEntryFirstKey(entries: seq<DictEntryValue>, key: Value)
    ensures forall i :: FirstKey(entries, key, i) ==> FindEntry(entries, key) == Some(entries[i])
    ensures FindEntry(entries, key) == None <==> forall i :: 0 <= i < |entries| ==> entries[i].key != key
  {
    if entries != [] {
      DeepEqualsIsEquality(entries[0].key, key);
      FindEntryFirstKey(entries[1..], key);
      if entries[0].key != key {
        forall i | FirstKey(entries, key, i) ensures FirstKey(entries[1..], key, i - 1) {
        }
        if FindEntry(entries, key) == None {
          forall i | 0 <= i < |entries| ensures entries[i].key != key {
            if i > 0 { assert entries[i] == entries[1..][i - 1]; }
          }
        }
      }
    }
  }

  /** Applying a dictionary value: other than exactly one argument fails with ArityError;
      one argument yields the value of the first entry, in entry order, whose key equals it;
      no such entry fails with KeyNotFound. */
  lemma DictApplication(ctx: Context, entries: seq<DictEntryValue>, args: seq<Value>, env: Env, fuel: nat)
    ensures |args| != 1 ==> ApplyProcedure(ctx, DictValue(entries), args, env, fuel) == Failure(ArityError)
    ensures |args| == 1 ==> forall i :: FirstKey(entries, args[0], i) ==>
              ApplyProcedure(ctx, DictValue(entries), args, env, fuel) == Ok(entries[i].value)
    ensures |args| == 1 && (forall i :: 0 <= i < |entries| ==> entries[i].key != args[0]) ==>
              ApplyProcedure(ctx, DictValue(entries), args, env, fuel) == Failure(KeyNotFound)
  {
    if |args| == 1 {
      FindEntryFirstKey(entries, args[0]);
    }
  }

  /** Only primitives, closures and dictionary values can be applied, and `let` is rejected. */
  lemma OnlyProceduresApply(ctx: Context, v: Value, args: seq<Value>, env: Env, fuel: nat,
                            bindings: seq<Binding>, body: seq<CExp>)
    ensures !(v.Prim? || v.Closure? || v.DictValue?) ==>
            ApplyProcedure(ctx, v, args, env, fuel) == Failure(NotApplicable)
    ensures Eval(ctx, LetExp(bindings, body), env, fuel) == Failure(LetNotSupported)
  {
  }

  /** Binding `k` is the first whose expression fails to evaluate. */
  ghost predicate FirstFailingBinding(ctx: Context, bs: seq<Binding>, env: Env, fuel: nat, k: int)
  {
    0 <= k < |bs| && Eval(ctx, bs[k].val, env, fuel).Failure? &&
    forall j :: 0 <= j < k ==> Eval(ctx, bs[j].val, env, fuel).Ok?
  }

  /** The entries of a dictionary expression, in binding order: the key is the symbol of the
      binding's name, the value that of its expression; the first failing expression's
      failure is the result. */
  lemma {:induction false} EvalBindingsSpec(ctx: Context, bs: seq<Binding>, env: Env, fuel: nat)
    ensures (forall i :: 0 <= i < |bs| ==> Eval(ctx, bs[i].val, env, fuel).Ok?) ==>
            var r := EvalBindings(ctx, bs, env, fuel);
            r.Ok? && |r.value| == |bs| &&
            forall i :: 0 <= i < |bs| ==>
              r.value[i] == DictEntryValue(Symbol(bs[i].name), Eval(ctx, bs[i].val, env, fuel).value)
    ensures forall k :: FirstFailingBinding(ctx, bs, env, fuel, k) ==>
            EvalBindings(ctx, bs, env, fuel) == Failure(Eval(ctx, bs[k].val, env, fuel).error)
  {
    if bs != [] {
      EvalBindingsSpec(ctx, bs[1..], env, fuel);
      if Eval(ctx, bs[0].val, env, fuel).Ok? {
        forall k | FirstFailingBinding(ctx, bs, env, fuel, k)
          ensures FirstFailingBinding(ctx, bs[1..], env, fuel, k - 1)
        {
          forall j | 0 <= j < k - 1 ensures Eval(ctx, bs[1..][j].val, env, fuel).Ok? {
            assert bs[1..][j] == bs[j + 1];
          }
        }
        if forall i :: 0 <= i < |bs| ==> Eval(ctx, bs[i].val, env, fuel).Ok? {
          assert forall i :: 0 <= i < |bs[1..]| ==> Eval(ctx, bs[1..][i].val, env, fuel).Ok? by {
            forall i | 0 <= i < |bs[1..]| ensures Eval(ctx, bs[1..][i].val, env, fuel).Ok? {
              assert bs[1..][i] == bs[i + 1];
            }
          }
        }
      }
    }
  }

  /** Evaluating a dictionary expression: with every value expression succeeding, a
      dictionary value with one entry per binding, in order, keyed by the binding's name;
      otherwise the first failure. */
  lemma EvalDictSpec(ctx: Context, bs: seq<Binding>, env: Env, fuel: nat)
    ensures (forall i :: 0 <= i < |bs| ==> Eval(ctx, bs[i].val, env, fuel).Ok?) ==>
            var r := Eval(ctx, DictExp(bs), env, fuel);
            r.Ok? && r.value.DictValue? && |r.value.entries| == |bs| &&
            forall i :: 0 <= i < |bs| ==>
              r.value.entries[i] == DictEntryValue(Symbol(bs[i].name), Eval(ctx, bs[i].val, env, fuel).value)
    ensures forall k :: FirstFailingBinding(ctx, bs, env, fuel, k) ==>
            Eval(ctx, DictExp(bs), env, fuel) == Failure(Eval(ctx, bs[k].val, env, fuel).error)
  {
    EvalBindingsSpec(ctx, bs, env, fuel);
  }

  /** A dictionary literal keeps its keys verbatim and evaluates its value expressions in order. */
  lemma {:induction false} EvalLitEntriesKeys(ctx: Context, es: seq<DictLitEntry>, env: Env, fuel: nat)
    ensures (forall i :: 0 <= i < |es| ==> Eval(ctx, es[i].value, env, fuel).Ok?) ==>
            var r := EvalLitEntries(ctx, es, env, fuel);
            r.Ok? && |r.value| == |es| &&
            forall i :: 0 <= i < |es| ==>
              r.value[i] == DictEntryValue(es[i].key, Eval(ctx, es[i].value, env, fuel).value)
  {
    if es != [] {
      EvalLitEntriesKeys(ctx, es[1..], env, fuel);
      if forall i :: 0 <= i < |es| ==> Eval(ctx, es[i].value, env, fuel).Ok? {
        assert forall i :: 0 <= i < |es[1..]| ==> Eval(ctx, es[1..][i].value, env, fuel).Ok? by {
          forall i | 0 <= i < |es[1..]| ensures Eval(ctx, es[1..][i].value, env, fuel).Ok? {
            assert es[1..][i] == es[i + 1];
          }
        }
      }
    }
  }

  /** The environment after running the forms `s` in order (a `define` extends it, an
      expression leaves it as it is), or the first failure; a reference for the sequencing. */
  function EnvAfter(ctx: Context, s: seq<Exp>, env: Env, fuel: nat): Result<Env>
  {
    if s == [] then Ok(env)
    else
      match s[0]
      case Define(name, val) =>
        var v :- Eval(ctx, val, env, fuel);
        EnvAfter(ctx, s[1..], MakeEnv(name, v, env), fuel)
      case Expr(e) =>
        var v :- Eval(ctx, e, env, fuel);
        EnvAfter(ctx, s[1..], env, fuel)
  }

  /** A sequence evaluates its last form in the environment that the earlier forms build, so a
      `define` is seen by every later form; the first failing earlier form's failure
      propagates; a sequence ending in a `define` fails; an empty sequence fails. */
  lemma {:induction false} EvalSequenceSpec(ctx: Context, s: seq<Exp>, env: Env, fuel: nat)
    ensures s == [] ==> EvalSequence(ctx, s, env, fuel) == Failure(EmptySequence)
    ensures s != [] && s[|s| - 1].Expr? && EnvAfter(ctx, s[..|s| - 1], env, fuel).Ok? ==>
            EvalSequence(ctx, s, env, fuel) ==
            Eval(ctx, s[|s| - 1].exp, EnvAfter(ctx, s[..|s| - 1], env, fuel).value, fuel)
    ensures s != [] && EnvAfter(ctx, s[..|s| - 1], env, fuel).Failure? ==>
            EvalSequence(ctx, s, env, fuel) == Failure(EnvAfter(ctx, s[..|s| - 1], env, fuel).error)
    ensures s != [] && s[|s| - 1].Define? ==> EvalSequence(ctx, s, env, fuel).Failure?
  {
    if |s| > 1 {
      var rest := s[1..];
      assert s[..|s| - 1][0] == s[0] && s[..|s| - 1][1..] == rest[..|rest| - 1];
      assert rest[|rest| - 1] == s[|s| - 1];
      match s[0]
      case Define(name, val) =>
        if Eval(ctx, val, env, fuel).Ok? {
          EvalSequenceSpec(ctx, rest, MakeEnv(name, Eval(ctx, val, env, fuel).value, env), fuel);
        }
      case Expr(e) =>
        if Eval(ctx, e, env, fuel).Ok? {
          EvalSequenceSpec(ctx, rest, env, fuel);
        }
    } else if |s| == 1 {
      assert s[..0] == [] && s[1..] == [];
      match s[0]
      case Define(name, val) =>
        if Eval(ctx, val, env, fuel).Ok? {
          assert EvalSequence(ctx, s, env, fuel) ==
                 EvalSequence(ctx, [], MakeEnv(name, Eval(ctx, val, env, fuel).value, env), fuel);
        }
      case Expr(e) =>
    }
  }

  /** `(define x e)` followed by `x` has the value of `e`. */
  lemma DefineThenReference(ctx: Context, name: string, e: CExp, env: Env, fuel: nat)
    ensures EvalSequence(ctx, [Define(name, e), Expr(VarRef(name))], env, fuel) == Eval(ctx, e, env, fuel)
  {
    var s := [Define(name, e), Expr(VarRef(name))];
    EvalSequenceSpec(ctx, s, env, fuel);
    assert s[..1] == [Define(name, e)];
    if Eval(ctx, e, env, fuel).Ok? {
      assert EnvAfter(ctx, s[..1], env, fuel) == Ok(MakeEnv(name, Eval(ctx, e, env, fuel).value, env));
    }
  }

  /** A dictionary expression with one entry evaluates to a dictionary value with that
      entry, keyed by the entry's name. */
  lemma OneEntryDict(ctx: Context, name: string, e: CExp, env: Env, fuel: nat)
    ensures Eval(ctx, e, env, fuel).Ok? ==>
            Eval(ctx, DictExp([Binding(name, e)]), env, fuel) ==
            Ok(DictValue([DictEntryValue(Symbol(name), Eval(ctx, e, env, fuel).value)]))
  {
    var bs := [Binding(name, e)];
    assert bs[1..] == [];
    assert Eval(ctx, bs[0].val, env, fuel) == Eval(ctx, e, env, fuel);
    assert EvalBindings(ctx, bs[1..], env, fuel) == Ok([]);
    if Eval(ctx, e, env, fuel).Ok? {
      var entry := DictEntryValue(Symbol(name), Eval(ctx, e, env, fuel).value);
      assert [entry] + [] == [entry];
      assert EvalBindings(ctx, bs, env, fuel) == Ok([entry]);
    }
  }

  /** A single operand list evaluates to the operand's value. */
  lemma OneOperand(ctx: Context, e: CExp, env: Env, fuel: nat)
    ensures Eval(ctx, e, env, fuel).Ok? ==> EvalList(ctx, [e], env, fuel) == Ok([Eval(ctx, e, env, fuel).value])
  {
    var es := [e];
    assert es[1..] == [];
    assert Eval(ctx, es[0], env, fuel) == Eval(ctx, e, env, fuel);
    assert EvalList(ctx, es[1..], env, fuel) == Ok([]);
    if Eval(ctx, e, env, fuel).Ok? {
      var v := Eval(ctx, e, env, fuel).value;
      assert [v] + [] == [v];
    }
  }

  /** A one-entry dictionary applied to its key yields the entry's value. */
  lemma OneEntryLookup(ctx: Context, name: string, v: Value)
    ensures FindInDict([DictEntryValue(Symbol(name), v)], [Symbol(name)]) == Ok(v)
  {
    DeepEqualsIsEquality(Symbol(name), Symbol(name));
  }

  /** Two operands evaluate to their two values, and a failure of either is the list's failure. */
  lemma TwoOperands(ctx: Context, a: CExp, b: CExp, env: Env, fuel: nat)
    ensures Eval(ctx, a, env, fuel).Ok? && Eval(ctx, b, env, fuel).Ok? ==>
            EvalList(ctx, [a, b], env, fuel) == Ok([Eval(ctx, a, env, fuel).value, Eval(ctx, b, env, fuel).value])
    ensures Eval(ctx, a, env, fuel).Failure? ==> EvalList(ctx, [a, b], env, fuel) == Failure(Eval(ctx, a, env, fuel).error)
    ensures Eval(ctx, a, env, fuel).Ok? && Eval(ctx, b, env, fuel).Failure? ==>
            EvalList(ctx, [a, b], env, fuel) == Failure(Eval(ctx, b, env, fuel).error)
  {
    var es := [a, b];
    assert es[0] == a && es[1..] == [b];
    OneOperand(ctx, b, env, fuel);
    if Eval(ctx, a, env, fuel).Ok? && Eval(ctx, b, env, fuel).Ok? {
      assert [Eval(ctx, a, env, fuel).value] + [Eval(ctx, b, env, fuel).value] ==
             [Eval(ctx, a, env, fuel).value, Eval(ctx, b, env, fuel).value];
    }
    if Eval(ctx, b, env, fuel).Failure? {
      assert Eval(ctx, es[1..][0], env, fuel) == Eval(ctx, b, env, fuel);
    }
  }

  /** Nested dictionaries: `(define d (dict (a (dict (x 10)))))` then `((d 'a) 'x)` is 10. */
  lemma NestedDictionaryLookup(ctx: Context, fuel: nat)
    ensures EvalProgram(ctx, Program([
              Define("d", DictExp([Binding("a", DictExp([Binding("x", NumExp(10))]))])),
              Expr(AppExp(AppExp(VarRef("d"), [LitExp(Symbol("a"))]), [LitExp(Symbol("x"))]))]), fuel)
            == Ok(Num(10))
  {
    var inner := DictExp([Binding("x", NumExp(10))]);
    var innerV := DictValue([DictEntryValue(Symbol("x"), Num(10))]);
    var outer := DictExp([Binding("a", inner)]);
    var outerV := DictValue([DictEntryValue(Symbol("a"), innerV)]);
    var env := MakeEnv("d", outerV, EmptyEnv());
    OneEntryDict(ctx, "x", NumExp(10), EmptyEnv(), fuel);
    OneEntryDict(ctx, "a", inner, EmptyEnv(), fuel);
    OneEntryLookup(ctx, "a", innerV);
    OneEntryLookup(ctx, "x", Num(10));
    var getA := AppExp(VarRef("d"), [LitExp(Symbol("a"))]);
    OneOperand(ctx, LitExp(Symbol("a")), env, fuel);
    assert Eval(ctx, getA, env, fuel) == Ok(innerV);
    OneOperand(ctx, LitExp(Symbol("x")), env, fuel);
    DefineAndApply(ctx, "d", outer, AppExp(getA, [LitExp(Symbol("x"))]), fuel);
  }

  /** A program of one definition followed by one expression evaluates the expression with the
      defined name bound. */
  lemma DefineAndApply(ctx: Context, name: string, val: CExp, body: CExp, fuel: nat)
    ensures Eval(ctx, val, EmptyEnv(), fuel).Ok? ==>
            EvalProgram(ctx, Program([Define(name, val), Expr(body)]), fuel) ==
            Eval(ctx, body, MakeEnv(name, Eval(ctx, val, EmptyEnv(), fuel).value, EmptyEnv()), fuel)
  {
    var s := [Define(name, val), Expr(body)];
    EvalSequenceSpec(ctx, s, EmptyEnv(), fuel);
    assert s[..1] == [Define(name, val)];
  }

  /** Conditional selection of dictionaries: `((if #t (dict (a 1)) (dict (a 2))) 'a)` is 1
      and the `#f` case is 2. */
  lemma ConditionalDictionary(ctx: Context, env: Env, fuel: nat)
    ensures Eval(ctx, AppExp(IfExp(BoolExp(true), DictExp([Binding("a", NumExp(1))]), DictExp([Binding("a", NumExp(2))])),
                             [LitExp(Symbol("a"))]), env, fuel) == Ok(Num(1))
    ensures Eval(ctx, AppExp(IfExp(BoolExp(false), DictExp([Binding("a", NumExp(1))]), DictExp([Binding("a", NumExp(2))])),
                             [LitExp(Symbol("a"))]), env, fuel) == Ok(Num(2))
  {
    OneEntryDict(ctx, "a", NumExp(1), env, fuel);
    OneEntryDict(ctx, "a", NumExp(2), env, fuel);
    OneEntryLookup(ctx, "a", Num(1));
    OneEntryLookup(ctx, "a", Num(2));
    OneOperand(ctx, LitExp(Symbol("a")), env, fuel);
    var d1 := DictExp([Binding("a", NumExp(1))]);
    var d2 := DictExp([Binding("a", NumExp(2))]);
    IfOnlyFalseIsFalse(ctx, BoolExp(true), d1, d2, env, fuel);
    IfOnlyFalseIsFalse(ctx, BoolExp(false), d1, d2, env, fuel);
  }
}
