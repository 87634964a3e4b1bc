/** The lowering pass from L32 to L3 (`Dict2App`): every dictionary expression becomes an
    application of the variable `dict` to a quoted association list, and every application
    whose operator is a dictionary expression becomes an application of the variable `get`.
    Everything else is rebuilt with its parts rewritten. */
module Lowering {
  import opened Results
  import opened Lang
  import opened Env
  import Primitives
  import Eval

  // ================================================================ tree predicates

  /** Every dictionary expression the rewrite reaches has at least one entry (the entry
      conversion reads the first entry unconditionally). */
  predicate DictsNonEmpty(e: CExp)
  {
    match e
    case DictExp(bs) => |bs| > 0
    case AppExp(rator, rands) =>
      DictsNonEmpty(rator) && forall i :: 0 <= i < |rands| ==> DictsNonEmpty(rands[i])
    case IfExp(t, c, a) => DictsNonEmpty(t) && DictsNonEmpty(c) && DictsNonEmpty(a)
    case ProcExp(_, body) => forall i :: 0 <= i < |body| ==> DictsNonEmpty(body[i])
    case LetExp(bs, body) =>
      (forall i :: 0 <= i < |bs| ==> DictsNonEmpty(bs[i].val)) &&
      forall i :: 0 <= i < |body| ==> DictsNonEmpty(body[i])
    case _ => true
  }

  /** No dictionary expression (`DictExp`) in any position the rewrite visits: if-parts,
      procedure bodies, let bindings and bodies, operators and operands. Quoted data is not
      visited, and a dictionary literal (`DictLitExp`) is left as it is, as the rewrite
      leaves it. */
  predicate Lowered(e: CExp)
  {
    match e
    case DictExp(_) => false
    case AppExp(rator, rands) =>
      Lowered(rator) && forall i :: 0 <= i < |rands| ==> Lowered(rands[i])
    case IfExp(t, c, a) => Lowered(t) && Lowered(c) && Lowered(a)
    case ProcExp(_, body) => forall i :: 0 <= i < |body| ==> Lowered(body[i])
    case LetExp(bs, body) =>
      (forall i :: 0 <= i < |bs| ==> Lowered(bs[i].val)) &&
      forall i :: 0 <= i < |body| ==> Lowered(body[i])
    case _ => true
  }

  // ================================================================ the rewrite

  function RewriteCExp(e: CExp): CExp
    requires DictsNonEmpty(e)
    decreases e, 1
  {
    match e
    case DictExp(bs) => RewriteDictExp(bs)
    case AppExp(_, _) => RewriteDictAppExp(e)
    case IfExp(t, c, a) => IfExp(RewriteCExp(t), RewriteCExp(c), RewriteCExp(a))
    case ProcExp(params, body) =>
      ProcExp(params, seq(|body|, i requires 0 <= i < |body| => RewriteCExp(body[i])))
    case LetExp(bs, body) =>
      LetExp(seq(|bs|, i requires 0 <= i < |bs| => Binding(bs[i].name, RewriteCExp(bs[i].val))),
             seq(|body|, i requires 0 <= i < |body| => RewriteCExp(body[i])))
    case _ => e
  }

  /** A dictionary expression becomes `(dict '((k1 . v1) ...))`. */
  function RewriteDictExp(bs: seq<Binding>): CExp
    requires |bs| > 0
  {
    AppExp(VarRef("dict"), [LitExp(RewriteDictEntry(bs))])
  }

  /** A dictionary operator becomes `(get <dict> operands...)`; any other application is
      rebuilt with its operator and operands rewritten. */
  function RewriteDictAppExp(e: CExp): CExp
    requires e.AppExp? && DictsNonEmpty(e)
    decreases e, 0
  {
    assert DictsNonEmpty(e.rator);
    var rands := seq(|e.rands|, i requires 0 <= i < |e.rands| => RewriteCExp(e.rands[i]));
    if e.rator.DictExp? then AppExp(VarRef("get"), [RewriteDictExp(e.rator.entries)] + rands)
    else AppExp(RewriteCExp(e.rator), rands)
  }

  /** The entries as a right-nested list of (key . converted value) pairs ending in '(). */
  function RewriteDictEntry(bs: seq<Binding>): Value
    requires |bs| > 0
  {
    if |bs| == 1 then Pair(Pair(Symbol(bs[0].name), Convert(bs[0].val)), Empty)
    else Pair(Pair(Symbol(bs[0].name), Convert(bs[0].val)), RewriteDictEntry(bs[1..]))
  }

  /** Conversion of an entry's expression to a datum: a variable reference becomes the
      symbol of its name, a number, boolean or string literal becomes its value, and any
      other expression is stored as the expression node itself. */
  function Convert(v: CExp): (r: Value)
    ensures IsLiteral(v) ==> !r.Node?
    ensures !IsLiteral(v) && !v.VarRef? ==> r == Node(v)
    ensures v.VarRef? ==> r == Symbol(v.name)
    ensures v.NumExp? ==> r == Num(v.n)
  {
    match v
    case VarRef(x) => Symbol(x)
    case NumExp(n) => Num(n)
    case BoolExp(b) => Bool(b)
    case StrExp(s) => Str(s)
    case _ => Node(v)
  }

  /** The conversion as the source writes it: only variable references and numbers are
      converted, every other expression (booleans and strings included) is stored as the
      expression node. */
  function ConvertAsWritten(v: CExp): Value
  {
    match v
    case VarRef(x) => Symbol(x)
    case NumExp(n) => Num(n)
    case _ => Node(v)
  }

  /** The entries as the source writes them, with the conversion that keeps booleans and
      strings as expression nodes. */
  function RewriteDictEntryAsWritten(bs: seq<Binding>): Value
    requires |bs| > 0
  {
    if |bs| == 1 then Pair(Pair(Symbol(bs[0].name), ConvertAsWritten(bs[0].val)), Empty)
    else Pair(Pair(Symbol(bs[0].name), ConvertAsWritten(bs[0].val)), RewriteDictEntryAsWritten(bs[1..]))
  }

  /** A dictionary expression as the source lowers it. */
  function RewriteDictExpAsWritten(bs: seq<Binding>): CExp
    requires |bs| > 0
  {
    AppExp(VarRef("dict"), [LitExp(RewriteDictEntryAsWritten(bs))])
  }

  predicate BoolOrString(v: CExp)
  {
    v.BoolExp? || v.StrExp?
  }

  predicate IsLiteral(v: CExp)
  {
    v.NumExp? || v.BoolExp? || v.StrExp?
  }

  /** A definition keeps its name and has its value rewritten; an expression is rewritten. */
  function RewriteExp(x: Exp): (r: Exp)
    requires DictsNonEmpty(FormExp(x))
    ensures r.Define? <==> x.Define?
    ensures x.Define? ==> r.name == x.name
    ensures FormExp(r) == RewriteCExp(FormExp(x))
  {
    match x
    case Define(name, val) => Define(name, RewriteCExp(val))
    case Expr(e) => Expr(RewriteCExp(e))
  }

  predicate ProgramDictsNonEmpty(p: Program)
  {
    forall i :: 0 <= i < |p.exps| ==> DictsNonEmpty(FormExp(p.exps[i]))
  }

  predicate ProgramLowered(p: Program)
  {
    forall i :: 0 <= i < |p.exps| ==> Lowered(FormExp(p.exps[i]))
  }

  /** The pass over a program: form by form, in order. */
  function Dict2App(p: Program): (r: Program)
    requires ProgramDictsNonEmpty(p)
    ensures |r.exps| == |p.exps|
    ensures forall i :: 0 <= i < |p.exps| ==>
              (r.exps[i].Define? <==> p.exps[i].Define?) &&
              (p.exps[i].Define? ==> r.exps[i].name == p.exps[i].name)
    ensures forall i :: 0 <= i < |p.exps| ==> FormExp(r.exps[i]) == RewriteCExp(FormExp(p.exps[i]))
  {
    Program(seq(|p.exps|, i requires 0 <= i < |p.exps| => RewriteExp(p.exps[i])))
  }

  /** The forms of `p` followed by those of `q`. */
  function MergePrograms(p: Program, q: Program): (r: Program)
    ensures |r.exps| == |p.exps| + |q.exps|
    ensures r.exps[..|p.exps|] == p.exps && r.exps[|p.exps|..] == q.exps
  {
    Program(p.exps + q.exps)
  }

  /** The prelude that defines `dict` and `get` in L3: the parsed program, or the empty
      program when parsing failed. */
  function PreludeProgram(parsed: Result<Program>): Program
  {
    if parsed.Ok? then parsed.value else Program([])
  }

  /** The whole L32 to L3 pass: the prelude, then the lowered program. Reading and parsing
      the prelude file happens outside the model; its parse result is the first parameter. */
  function L32ToL3(parsed: Result<Program>, p: Program): Program
    requires ProgramDictsNonEmpty(p)
  {
    MergePrograms(PreludeProgram(parsed), Dict2App(p))
  }

  // ================================================================ properties

  /** A dictionary literal is not a dictionary expression: the rewrite keeps it, `Lowered`
      accepts it, and a program made of it is its own lowering. */
  lemma DictLiteralPassesThrough(es: seq<DictLitEntry>)
    ensures DictsNonEmpty(DictLitExp(es)) && RewriteCExp(DictLitExp(es)) == DictLitExp(es)
    ensures Lowered(DictLitExp(es))
    ensures var p := Program([Expr(DictLitExp(es))]);
            ProgramDictsNonEmpty(p) && Dict2App(p) == p
  {
    var p := Program([Expr(DictLitExp(es))]);
    assert ProgramLowered(p);
    Dict2AppIdentity(p);
  }

  /** On a tree with no dictionary expression, the rewrite is the identity. */
  lemma {:induction false} RewriteIdentity(e: CExp)
    requires Lowered(e)
    ensures DictsNonEmpty(e) && RewriteCExp(e) == e
    decreases e
  {
    match e
    case AppExp(rator, rands) =>
      RewriteIdentity(rator);
      forall i | 0 <= i < |rands| ensures DictsNonEmpty(rands[i]) && RewriteCExp(rands[i]) == rands[i] {
        RewriteIdentity(rands[i]);
      }
      assert seq(|rands|, i requires 0 <= i < |rands| => RewriteCExp(rands[i])) == rands;
    case IfExp(t, c, a) =>
      RewriteIdentity(t);
      RewriteIdentity(c);
      RewriteIdentity(a);
    case ProcExp(params, body) =>
      forall i | 0 <= i < |body| ensures DictsNonEmpty(body[i]) && RewriteCExp(body[i]) == body[i] {
        RewriteIdentity(body[i]);
      }
      assert seq(|body|, i requires 0 <= i < |body| => RewriteCExp(body[i])) == body;
    case LetExp(bs, body) =>
      forall i | 0 <= i < |bs| ensures DictsNonEmpty(bs[i].val) && RewriteCExp(bs[i].val) == bs[i].val {
        RewriteIdentity(bs[i].val);
      }
      forall i | 0 <= i < |body| ensures DictsNonEmpty(body[i]) && RewriteCExp(body[i]) == body[i] {
        RewriteIdentity(body[i]);
      }
      assert seq(|bs|, i requires 0 <= i < |bs| => Binding(bs[i].name, RewriteCExp(bs[i].val))) == bs;
      assert seq(|body|, i requires 0 <= i < |body| => RewriteCExp(body[i])) == body;
    case _ =>
  }

  /** After the rewrite no dictionary expression remains in any visited position. */
  lemma {:induction false} RewriteLowers(e: CExp)
    requires DictsNonEmpty(e)
    ensures Lowered(RewriteCExp(e))
    decreases e
  {
    match e
    case AppExp(rator, rands) =>
      var rs := seq(|rands|, i requires 0 <= i < |rands| => RewriteCExp(rands[i]));
      forall i | 0 <= i < |rands| ensures Lowered(rs[i]) {
        RewriteLowers(rands[i]);
      }
      if rator.DictExp? {
        var args := [RewriteDictExp(rator.entries)] + rs;
        assert RewriteCExp(e) == AppExp(VarRef("get"), args);
        forall i | 0 <= i < |args| ensures Lowered(args[i]) {
          if i > 0 { assert args[i] == rs[i - 1]; }
        }
      } else {
        RewriteLowers(rator);
      }
    case IfExp(t, c, a) =>
      RewriteLowers(t);
      RewriteLowers(c);
      RewriteLowers(a);
    case ProcExp(params, body) =>
      forall i | 0 <= i < |body| ensures Lowered(RewriteCExp(body[i])) {
        RewriteLowers(body[i]);
      }
    case LetExp(bs, body) =>
      forall i | 0 <= i < |bs| ensures Lowered(RewriteCExp(bs[i].val)) {
        RewriteLowers(bs[i].val);
      }
      forall i | 0 <= i < |body| ensures Lowered(RewriteCExp(body[i])) {
        RewriteLowers(body[i]);
      }
    case _ =>
  }

  /** The (name, converted value) pairs of the entries, in entry order. */
  function EntryPairs(bs: seq<Binding>): (r: seq<(string, Value)>)
    ensures |r| == |bs|
  {
    seq(|bs|, i requires 0 <= i < |bs| => (bs[i].name, Convert(bs[i].val)))
  }

  /** The quoted datum is the association list of the entries: one (key . value) pair per
      entry, in entry order, keys unchanged. */
  lemma {:induction false} RewriteDictEntryIsAlist(bs: seq<Binding>)
    requires |bs| > 0
    ensures RewriteDictEntry(bs) == Primitives.Alist(EntryPairs(bs))
  {
    var pairs := EntryPairs(bs);
    var elems := seq(|pairs|, i requires 0 <= i < |pairs| => Pair(Symbol(pairs[i].0), pairs[i].1));
    var tail := EntryPairs(bs[1..]);
    var tailElems := seq(|tail|, i requires 0 <= i < |tail| => Pair(Symbol(tail[i].0), tail[i].1));
    assert elems[1..] == tailElems;
    assert Primitives.Alist(pairs) == Pair(elems[0], Primitives.ListPrim(elems[1..]));
    if |bs| == 1 {
      assert elems[1..] == [];
    } else {
      RewriteDictEntryIsAlist(bs[1..]);
    }
  }

  /** A dictionary expression becomes `dict` applied to exactly one quoted literal, and that
      literal is a proper list whose i-th element is (k_i . converted v_i), which `dict?`
      accepts. */
  lemma DictExpLowering(bs: seq<Binding>)
    requires |bs| > 0
    ensures var r := RewriteCExp(DictExp(bs));
            r.AppExp? && r.rator == VarRef("dict") && |r.rands| == 1 && r.rands[0].LitExp? &&
            Primitives.ProperList(r.rands[0].datum) &&
            |Primitives.Spine(r.rands[0].datum)| == |bs| &&
            (forall i :: 0 <= i < |bs| ==>
               Primitives.Spine(r.rands[0].datum)[i] == Pair(Symbol(bs[i].name), Convert(bs[i].val))) &&
            Primitives.IsDictPrim(r.rands[0].datum)
  {
    var pairs := EntryPairs(bs);
    var elems := seq(|pairs|, i requires 0 <= i < |pairs| => Pair(Symbol(pairs[i].0), pairs[i].1));
    RewriteDictEntryIsAlist(bs);
    Primitives.ListPrimSpine(elems);
    Primitives.GetFromAlist(pairs, "");
  }

  /** An application of a dictionary expression becomes `get` applied to the lowered
      dictionary followed by the lowered operands in order; any other application keeps its
      operand count, with operator and operands lowered. */
  lemma DictApplicationLowering(rator: CExp, rands: seq<CExp>)
    requires DictsNonEmpty(AppExp(rator, rands))
    ensures var r := RewriteCExp(AppExp(rator, rands));
            r.AppExp? &&
            (rator.DictExp? ==>
               r.rator == VarRef("get") && |r.rands| == |rands| + 1 &&
               r.rands[0] == RewriteCExp(rator) &&
               forall i :: 0 <= i < |rands| ==> r.rands[i + 1] == RewriteCExp(rands[i])) &&
            (!rator.DictExp? ==>
               r.rator == RewriteCExp(rator) && |r.rands| == |rands| &&
               forall i :: 0 <= i < |rands| ==> r.rands[i] == RewriteCExp(rands[i]))
  {
  }

  /** The pass over a program leaves no dictionary expression, and it is the identity on a
      program that has none. */
  lemma Dict2AppLowers(p: Program)
    requires ProgramDictsNonEmpty(p)
    ensures ProgramLowered(Dict2App(p))
  {
    var r := Dict2App(p);
    forall i | 0 <= i < |p.exps| ensures Lowered(FormExp(r.exps[i])) {
      RewriteLowers(FormExp(p.exps[i]));
    }
  }

  lemma Dict2AppIdentity(p: Program)
    requires ProgramLowered(p)
    ensures ProgramDictsNonEmpty(p) && Dict2App(p) == p
  {
    forall i | 0 <= i < |p.exps| ensures DictsNonEmpty(FormExp(p.exps[i])) && RewriteCExp(FormExp(p.exps[i])) == FormExp(p.exps[i]) {
      RewriteIdentity(FormExp(p.exps[i]));
    }
    assert Dict2App(p).exps == p.exps;
  }

  /** Lowering a merged program is merging the lowered programs. */
  lemma Dict2AppMerge(p: Program, q: Program)
    requires ProgramDictsNonEmpty(p) && ProgramDictsNonEmpty(q)
    ensures ProgramDictsNonEmpty(MergePrograms(p, q))
    ensures Dict2App(MergePrograms(p, q)) == MergePrograms(Dict2App(p), Dict2App(q))
  {
    var m := MergePrograms(p, q);
    MergeDictsNonEmpty(p, q);
    var lp, lq, lm := Dict2App(p).exps, Dict2App(q).exps, Dict2App(m).exps;
    forall i | 0 <= i < |lm| ensures lm[i] == (lp + lq)[i] {
      if i < |p.exps| {
        assert m.exps[i] == p.exps[i];
      } else {
        assert m.exps[i] == q.exps[i - |p.exps|];
      }
    }
    assert lm == lp + lq;
  }

  lemma MergeDictsNonEmpty(p: Program, q: Program)
    requires ProgramDictsNonEmpty(p) && ProgramDictsNonEmpty(q)
    ensures ProgramDictsNonEmpty(MergePrograms(p, q))
  {
    var m := MergePrograms(p, q);
    forall i | 0 <= i < |m.exps| ensures DictsNonEmpty(FormExp(m.exps[i])) {
      if i >= |p.exps| { assert m.exps[i] == q.exps[i - |p.exps|]; }
    }
  }

  /** The pass keeps the prelude in front, or nothing when the prelude did not parse, and
      puts the lowered program after it. */
  lemma L32ToL3Shape(parsed: Result<Program>, p: Program)
    requires ProgramDictsNonEmpty(p)
    ensures var r := L32ToL3(parsed, p);
            var pre := PreludeProgram(parsed);
            |r.exps| == |pre.exps| + |p.exps| &&
            r.exps[..|pre.exps|] == pre.exps &&
            r.exps[|pre.exps|..] == Dict2App(p).exps
    ensures parsed.Ok? ==> PreludeProgram(parsed) == parsed.value
    ensures parsed.Failure? ==> L32ToL3(parsed, p) == Dict2App(p)
  {
    if parsed.Failure? {
      var lowered := Dict2App(p);
      assert PreludeProgram(parsed).exps == [];
      assert [] + lowered.exps == lowered.exps;
    }
  }

  /** A prelude free of dictionary forms gives a result free of them. */
  lemma L32ToL3Lowers(parsed: Result<Program>, p: Program)
    requires ProgramDictsNonEmpty(p)
    requires ProgramLowered(PreludeProgram(parsed))
    ensures ProgramLowered(L32ToL3(parsed, p))
  {
    Dict2AppLowers(p);
    MergeLowered(PreludeProgram(parsed), Dict2App(p));
  }

  lemma MergeLowered(p: Program, q: Program)
    requires ProgramLowered(p) && ProgramLowered(q)
    ensures ProgramLowered(MergePrograms(p, q))
  {
    var r := MergePrograms(p, q);
    forall i | 0 <= i < |r.exps| ensures Lowered(FormExp(r.exps[i])) {
      if i < |p.exps| {
        assert r.exps[i] == p.exps[i];
      } else {
        assert r.exps[i] == q.exps[i - |p.exps|];
      }
    }
  }

  // ================================================================ lowering round trip

  predicate LiteralValued(bs: seq<Binding>)
  {
    forall i :: 0 <= i < |bs| ==> IsLiteral(bs[i].val)
  }

  /** Lowered code runs where `dict` and `get` name the dictionary primitives. */
  predicate BindsDictPrimitives(env: Env)
  {
    ApplyEnv(env, "dict") == Ok(Prim("dict")) && ApplyEnv(env, "get") == Ok(Prim("get"))
  }

  /** A number, boolean or string literal converts to exactly the value it evaluates to. */
  lemma ConvertAgreesWithEval(ctx: Eval.Context, v: CExp, env: Env, fuel: nat)
    requires IsLiteral(v)
    ensures Eval.Eval(ctx, v, env, fuel) == Ok(Convert(v))
  {
  }

  /** The entries a dictionary expression with literal values evaluates to. */
  function DirectEntries(bs: seq<Binding>): (r: seq<DictEntryValue>)
    ensures |r| == |bs|
  {
    seq(|bs|, i requires 0 <= i < |bs| => DictEntryValue(Symbol(bs[i].name), Convert(bs[i].val)))
  }

  lemma {:induction false} EvalLiteralBindings(ctx: Eval.Context, bs: seq<Binding>, env: Env, fuel: nat)
    requires LiteralValued(bs)
    ensures Eval.EvalBindings(ctx, bs, env, fuel) == Ok(DirectEntries(bs))
  {
    if bs != [] {
      ConvertAgreesWithEval(ctx, bs[0].val, env, fuel);
      EvalLiteralBindings(ctx, bs[1..], env, fuel);
      assert DirectEntries(bs) == [DirectEntries(bs)[0]] + DirectEntries(bs[1..]);
    }
  }

  /** Applying the directly evaluated dictionary to a symbol is first-match lookup of its
      name among the entries; applying it to any other value finds nothing. */
  lemma {:induction false} DirectLookup(bs: seq<Binding>, key: Value)
    ensures key.Symbol? ==> Eval.FindInDict(DirectEntries(bs), [key]) == Primitives.Lookup(EntryPairs(bs), key.name)
    ensures !key.Symbol? ==> Eval.FindInDict(DirectEntries(bs), [key]) == Failure(KeyNotFound)
  {
    if bs != [] {
      assert DirectEntries(bs)[1..] == DirectEntries(bs[1..]);
      assert EntryPairs(bs)[1..] == EntryPairs(bs[1..]);
      Eval.DeepEqualsIsEquality(Symbol(bs[0].name), key);
      DirectLookup(bs[1..], key);
    }
  }

  /** Direct evaluation of a literal-valued dictionary applied to one operand: the operand's
      failure, or lookup of its value among the entries. */
  lemma DirectApplication(ctx: Eval.Context, bs: seq<Binding>, arg: CExp, env: Env, fuel: nat)
    requires LiteralValued(bs)
    ensures Eval.Eval(ctx, arg, env, fuel).Failure? ==>
            Eval.Eval(ctx, AppExp(DictExp(bs), [arg]), env, fuel) == Failure(Eval.Eval(ctx, arg, env, fuel).error)
    ensures Eval.Eval(ctx, arg, env, fuel).Ok? ==>
            Eval.Eval(ctx, AppExp(DictExp(bs), [arg]), env, fuel) ==
            Eval.FindInDict(DirectEntries(bs), [Eval.Eval(ctx, arg, env, fuel).value])
  {
    EvalLiteralBindings(ctx, bs, env, fuel);
    assert Eval.Eval(ctx, DictExp(bs), env, fuel) == Ok(DictValue(DirectEntries(bs)));
    Eval.OneOperand(ctx, arg, env, fuel);
  }

  /** Evaluation of the lowered form `(get (dict 'lit) operand)`: the operand's failure, or
      `get` on the literal and the operand's value. */
  lemma LoweredApplication(ctx: Eval.Context, lit: Value, arg: CExp, env: Env, fuel: nat)
    requires BindsDictPrimitives(env) && lit.Pair?
    ensures var lowered := AppExp(VarRef("get"), [AppExp(VarRef("dict"), [LitExp(lit)]), arg]);
            (Eval.Eval(ctx, arg, env, fuel).Failure? ==>
               Eval.Eval(ctx, lowered, env, fuel) == Failure(Eval.Eval(ctx, arg, env, fuel).error)) &&
            (Eval.Eval(ctx, arg, env, fuel).Ok? ==>
               Eval.Eval(ctx, lowered, env, fuel) == Primitives.GetInDict(lit, Eval.Eval(ctx, arg, env, fuel).value))
  {
    var dictApp := AppExp(VarRef("dict"), [LitExp(lit)]);
    DictOfLiteral(ctx, lit, env, fuel);
    Eval.TwoOperands(ctx, dictApp, arg, env, fuel);
  }

  /** `(dict 'lit)` evaluates to the pair `lit` itself. */
  lemma DictOfLiteral(ctx: Eval.Context, lit: Value, env: Env, fuel: nat)
    requires BindsDictPrimitives(env) && lit.Pair?
    ensures Eval.Eval(ctx, AppExp(VarRef("dict"), [LitExp(lit)]), env, fuel) == Ok(lit)
  {
    Eval.OneOperand(ctx, LitExp(lit), env, fuel);
  }

  /** The lowering round trip: applying a dictionary expression whose values are literals to
      any dictionary-free operand gives the same result whether the dictionary is evaluated
      directly or lowered to `(get (dict '(...)) operand)` over the association-list
      primitives. The one difference is the kind of failure for an operand that is not a
      symbol (a type error from `get`, KeyNotFound from the dictionary value). */
  lemma LoweringPreservesLookup(ctx: Eval.Context, bs: seq<Binding>, arg: CExp, env: Env, fuel: nat)
    requires |bs| > 0 && LiteralValued(bs) && Lowered(arg) && BindsDictPrimitives(env)
    ensures DictsNonEmpty(AppExp(DictExp(bs), [arg]))
    ensures Eval.Eval(ctx, RewriteCExp(AppExp(DictExp(bs), [arg])), env, fuel).Ok? <==>
            Eval.Eval(ctx, AppExp(DictExp(bs), [arg]), env, fuel).Ok?
    ensures Eval.Eval(ctx, arg, env, fuel).Failure? || Eval.Eval(ctx, arg, env, fuel).value.Symbol? ==>
            Eval.Eval(ctx, RewriteCExp(AppExp(DictExp(bs), [arg])), env, fuel) ==
            Eval.Eval(ctx, AppExp(DictExp(bs), [arg]), env, fuel)
  {
    var app := AppExp(DictExp(bs), [arg]);
    RewriteIdentity(arg);
    assert DictsNonEmpty(app);
    var lit := RewriteDictEntry(bs);
    assert RewriteCExp(app) == AppExp(VarRef("get"), [AppExp(VarRef("dict"), [LitExp(lit)]), arg]) by {
      assert [RewriteDictExp(bs)] + [RewriteCExp(arg)] == [AppExp(VarRef("dict"), [LitExp(lit)]), arg];
    }
    RewriteDictEntryIsAlist(bs);
    Primitives.AlistLookup(EntryPairs(bs), "");
    DirectApplication(ctx, bs, arg, env, fuel);
    LoweredApplication(ctx, lit, arg, env, fuel);
    var k := Eval.Eval(ctx, arg, env, fuel);
    if k.Ok? {
      DirectLookup(bs, k.value);
      if k.value.Symbol? {
        Primitives.GetFromAlist(EntryPairs(bs), k.value.name);
        assert Primitives.DictPrim(lit) == lit;
      }
    }
  }

  /** The corrected entry lowering differs from the source's exactly when some entry's value
      is a boolean or string literal; on every other dictionary the two agree. */
  lemma {:induction false} AsWrittenDiffersOnlyAtBoolOrString(bs: seq<Binding>)
    requires |bs| > 0
    ensures RewriteDictEntryAsWritten(bs) == RewriteDictEntry(bs) <==>
            forall i :: 0 <= i < |bs| ==> !BoolOrString(bs[i].val)
  {
    if !BoolOrString(bs[0].val) {
      assert ConvertAsWritten(bs[0].val) == Convert(bs[0].val);
      if |bs| > 1 {
        AsWrittenDiffersOnlyAtBoolOrString(bs[1..]);
        if forall i :: 0 <= i < |bs[1..]| ==> !BoolOrString(bs[1..][i].val) {
          forall i | 0 <= i < |bs| ensures !BoolOrString(bs[i].val) {
            if i > 0 { assert bs[i] == bs[1..][i - 1]; }
          }
        } else {
          var k :| 0 <= k < |bs[1..]| && BoolOrString(bs[1..][k].val);
          assert bs[k + 1] == bs[1..][k];
        }
      }
    } else {
      assert ConvertAsWritten(bs[0].val).Node?;
      assert !Convert(bs[0].val).Node?;
    }
  }

  /** The entry conversion as written stores a boolean literal as its expression node: the
      one-entry list it builds for `(dict (a #t))` makes `get` return that node, where
      evaluating the dictionary directly gives #t, and so does the corrected lowering. */
  lemma BooleanEntryAsWritten(ctx: Eval.Context, env: Env, fuel: nat)
    requires BindsDictPrimitives(env)
    ensures Eval.Eval(ctx, AppExp(VarRef("get"), [RewriteDictExpAsWritten([Binding("a", BoolExp(true))]), LitExp(Symbol("a"))]), env, fuel)
            == Ok(Node(BoolExp(true)))
    ensures Eval.Eval(ctx, AppExp(DictExp([Binding("a", BoolExp(true))]), [LitExp(Symbol("a"))]), env, fuel) == Ok(Bool(true))
    ensures Eval.Eval(ctx, RewriteCExp(AppExp(DictExp([Binding("a", BoolExp(true))]), [LitExp(Symbol("a"))])), env, fuel) == Ok(Bool(true))
  {
    var bs := [Binding("a", BoolExp(true))];
    LoweredApplication(ctx, RewriteDictEntryAsWritten(bs), LitExp(Symbol("a")), env, fuel);
    Eval.OneEntryDict(ctx, "a", BoolExp(true), env, fuel);
    Eval.OneOperand(ctx, LitExp(Symbol("a")), env, fuel);
    Eval.OneEntryLookup(ctx, "a", Bool(true));
    LoweringPreservesLookup(ctx, bs, LitExp(Symbol("a")), env, fuel);
  }

  /** A variable as an entry value: the evaluator looks the variable up, while the lowering
      quotes its name, so with `x` bound to 5 the dictionary gives 5 and its lowering gives
      the symbol `x`. */
  lemma VariableEntryLowering(ctx: Eval.Context, env: Env, fuel: nat)
    requires BindsDictPrimitives(env) && ApplyEnv(env, "x") == Ok(Num(5))
    ensures Eval.Eval(ctx, AppExp(DictExp([Binding("a", VarRef("x"))]), [LitExp(Symbol("a"))]), env, fuel) == Ok(Num(5))
    ensures Eval.Eval(ctx, RewriteCExp(AppExp(DictExp([Binding("a", VarRef("x"))]), [LitExp(Symbol("a"))])), env, fuel)
            == Ok(Symbol("x"))
  {
    var bs := [Binding("a", VarRef("x"))];
    var key := LitExp(Symbol("a"));
    Eval.OneEntryDict(ctx, "a", VarRef("x"), env, fuel);
    Eval.OneOperand(ctx, key, env, fuel);
    Eval.OneEntryLookup(ctx, "a", Num(5));
    RewriteIdentity(key);
    assert DictsNonEmpty(AppExp(DictExp(bs), [key]));
    var lit := RewriteDictEntry(bs);
    assert lit == Pair(Pair(Symbol("a"), Symbol("x")), Empty);
    assert RewriteCExp(AppExp(DictExp(bs), [key])) ==
           AppExp(VarRef("get"), [AppExp(VarRef("dict"), [LitExp(lit)]), key]);
    LoweredApplication(ctx, lit, key, env, fuel);
  }
}
