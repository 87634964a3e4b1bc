/** The L3 to JavaScript printer: programs as `;`-separated statements, definitions as
    `const` declarations, `if` as the conditional operator, procedures as arrow functions and
    primitive applications as infix operators. */
module ToJS {
  import opened Results
  import opened Lang

  /** `xs.join(sep)` */
  function Join(xs: seq<string>, sep: string): string
  {
    if |xs| == 0 then ""
    else if |xs| == 1 then xs[0]
    else xs[0] + sep + Join(xs[1..], sep)
  }

  /** `${args[0]}`: the host prints a missing element as `undefined`. */
  function First(args: seq<string>): string
  {
    if |args| > 0 then args[0] else "undefined"
  }

  // ================================================================ numbers

  function DigitChar(d: nat): char
    requires d < 10
  {
    "0123456789"[d]
  }

  function NatToString(n: nat): string
    decreases n
  {
    if n < 10 then [DigitChar(n)] else NatToString(n / 10) + [DigitChar(n % 10)]
  }

  /** The host's `toString` of an integer: its decimal digits, with a leading `-` when
      negative. */
  function IntToString(n: int): string
  {
    if n < 0 then "-" + NatToString(-n) else NatToString(n)
  }

  predicate IsDigit(c: char)
  {
    '0' <= c <= '9'
  }

  predicate AllDigits(s: string)
  {
    forall i :: 0 <= i < |s| ==> IsDigit(s[i])
  }

  /** Reads a string of decimal digits back as a number. */
  function ParseDigits(s: string): nat
    requires AllDigits(s)
  {
    if s == [] then 0
    else
      assert IsDigit(s[|s| - 1]);
      ParseDigits(s[..|s| - 1]) * 10 + ((s[|s| - 1] as int) - ('0' as int))
  }

  predicate Negative(s: string)
  {
    |s| > 0 && s[0] == '-'
  }

  /** The text after an optional leading `-`. */
  function Magnitude(s: string): string
  {
    if Negative(s) then s[1..] else s
  }

  /** An optional `-` followed by at least one decimal digit. */
  predicate IsIntText(s: string)
  {
    |Magnitude(s)| > 0 && AllDigits(Magnitude(s))
  }

  /** Reads integer text back as a number. */
  function ParseInt(s: string): int
    requires IsIntText(s)
  {
    if Negative(s) then -(ParseDigits(Magnitude(s)) as int) else ParseDigits(Magnitude(s))
  }

  /** The digits printed for `n` are decimal digits, there is at least one, and they read
      back as `n`. */
  lemma {:induction false} NatToStringRoundTrip(n: nat)
    ensures |NatToString(n)| > 0
    ensures AllDigits(NatToString(n))
    ensures ParseDigits(NatToString(n)) == n
    decreases n
  {
    var s := NatToString(n);
    if n >= 10 {
      NatToStringRoundTrip(n / 10);
      assert s[..|s| - 1] == NatToString(n / 10);
      assert s[|s| - 1] == DigitChar(n % 10);
    }
  }

  /** Every integer prints as integer text that reads back as the same integer. */
  lemma IntToStringRoundTrip(n: int)
    ensures IsIntText(IntToString(n))
    ensures ParseInt(IntToString(n)) == n
  {
    var m := if n < 0 then -n else n;
    NatToStringRoundTrip(m);
    var s := IntToString(n);
    if n < 0 {
      assert s[0] == '-' && s[1..] == NatToString(m);
    } else {
      assert NatToString(m)[0] != '-';
    }
  }

  // ================================================================ the printer

  /** Operator names the two languages spell differently; the rest are kept. */
  function PrimOpToJS(op: string): string
  {
    if op == "=" then "==="
    else if op == "eq?" then "==="
    else if op == "not" then "!"
    else if op == "and" then "&&"
    else if op == "or" then "||"
    else op
  }

  function CExpToJS(e: CExp): Result<string>
    decreases Size(e), 2
  {
    match e
    case AppExp(_, _) => AppToJS(e)
    case PrimOp(op) => Ok(PrimOpToJS(op))
    case IfExp(_, _, _) => IfToJS(e)
    case ProcExp(_, _) => ProcToJS(e)
    case BoolExp(b) => Ok(if b then "true" else "false")
    case NumExp(n) => Ok(IntToString(n))
    case StrExp(s) => Ok("\"" + s + "\"")
    case VarRef(x) => Ok(x)
    case _ => Failure(UnknownCExp)
  }

  /** `mapResult(cexpToJS, es)`: every translation, or the first failure. */
  function CExpsToJS(es: seq<CExp>): Result<seq<string>>
    decreases SizeList(es), 3
  {
    if es == [] then Ok([])
    else
      var s :- CExpToJS(es[0]);
      var rest :- CExpsToJS(es[1..]);
      Ok([s] + rest)
  }

  /** Operands first; then a primitive operator gives a prefix form for `not`, a `typeof`
      test for `number?` and `boolean?`, and an infix chain for the others; any other
      operator gives a call. */
  function AppToJS(e: CExp): Result<string>
    requires e.AppExp?
    decreases Size(e), 1
  {
    var args :- CExpsToJS(e.rands);
    if e.rator.PrimOp? then Ok(PrimAppToJS(e.rator.op, args))
    else
      var rator :- CExpToJS(e.rator);
      Ok(rator + "(" + Join(args, ",") + ")")
  }

  function PrimAppToJS(op: string, args: seq<string>): string
  {
    if op == "not" then "(!" + First(args) + ")"
    else if op == "number?" then "(typeof " + First(args) + " === \"number\")"
    else if op == "boolean?" then "(typeof " + First(args) + " === \"boolean\")"
    else "(" + Join(args, " " + PrimOpToJS(op) + " ") + ")"
  }

  function IfToJS(e: CExp): Result<string>
    requires e.IfExp?
    decreases Size(e), 1
  {
    var test :- CExpToJS(e.test);
    var consequent :- CExpToJS(e.consequent);
    var alternative :- CExpToJS(e.alternative);
    Ok("(" + test + " ? " + consequent + " : " + alternative + ")")
  }

  /** One body expression is the arrow's expression; several make a block. */
  function ProcToJS(e: CExp): Result<string>
    requires e.ProcExp?
    decreases Size(e), 1
  {
    var body :- CExpsToJS(e.body);
    Ok("((" + Join(e.params, ",") + ") => " + ProcBody(body) + ")")
  }

  function ProcBody(body: seq<string>): string
  {
    if |body| == 1 then body[0] else "{\n" + Join(body, ";\n") + "\n}"
  }

  function DefineToJS(name: string, val: CExp): Result<string>
  {
    var v :- CExpToJS(val);
    Ok("const " + name + " = " + v)
  }

  function ExpToJS(x: Exp): Result<string>
  {
    match x
    case Define(name, val) => DefineToJS(name, val)
    case Expr(e) => CExpToJS(e)
  }

  function ExpsToJS(xs: seq<Exp>): Result<seq<string>>
  {
    if xs == [] then Ok([])
    else
      var s :- ExpToJS(xs[0]);
      var rest :- ExpsToJS(xs[1..]);
      Ok([s] + rest)
  }

  /** Form by form, joined with `;` and a newline. */
  function ProgramToJS(p: Program): Result<string>
  {
    var lines :- ExpsToJS(p.exps);
    Ok(Join(lines, ";\n"))
  }

  /** What the printer accepts: a program or a single top-level form. */
  datatype Node = ProgramNode(program: Program) | FormNode(form: Exp)

  function L2ToJS(n: Node): Result<string>
  {
    match n
    case ProgramNode(p) => ProgramToJS(p)
    case FormNode(x) => ExpToJS(x)
  }

  // ================================================================ properties

  /** The expressions the printer handles: everything but quoted literals, `let` and the two
      dictionary forms, at every depth it visits. */
  predicate Translatable(e: CExp)
  {
    match e
    case AppExp(rator, rands) => Translatable(rator) && forall i :: 0 <= i < |rands| ==> Translatable(rands[i])
    case IfExp(t, c, a) => Translatable(t) && Translatable(c) && Translatable(a)
    case ProcExp(_, body) => forall i :: 0 <= i < |body| ==> Translatable(body[i])
    case LitExp(_) => false
    case LetExp(_, _) => false
    case DictExp(_) => false
    case DictLitExp(_) => false
    case _ => true
  }

  /** Translation succeeds exactly on the expressions the printer handles; otherwise it
      fails with UnknownCExp. */
  lemma {:induction false} TranslatableIff(e: CExp)
    ensures CExpToJS(e).Ok? <==> Translatable(e)
    ensures CExpToJS(e).Failure? ==> CExpToJS(e).error == UnknownCExp
    decreases Size(e), 0
  {
    match e
    case AppExp(rator, rands) =>
      TranslatableIff(rator);
      TranslatableListIff(rands);
    case IfExp(t, c, a) =>
      TranslatableIff(t);
      TranslatableIff(c);
      TranslatableIff(a);
    case ProcExp(_, body) =>
      TranslatableListIff(body);
    case _ =>
  }

  /** Operands translate exactly when each does, to one string per operand in order. */
  lemma {:induction false} TranslatableListIff(es: seq<CExp>)
    ensures CExpsToJS(es).Ok? <==> forall i :: 0 <= i < |es| ==> Translatable(es[i])
    ensures CExpsToJS(es).Failure? ==> CExpsToJS(es).error == UnknownCExp
    ensures CExpsToJS(es).Ok? ==>
              |CExpsToJS(es).value| == |es| &&
              forall i :: 0 <= i < |es| ==> CExpToJS(es[i]) == Ok(CExpsToJS(es).value[i])
    decreases SizeList(es), 1
  {
    if es != [] {
      TranslatableIff(es[0]);
      TranslatableListIff(es[1..]);
      if forall i :: 0 <= i < |es| ==> Translatable(es[i]) {
        assert forall i :: 0 <= i < |es[1..]| ==> Translatable(es[1..][i]) by {
          forall i | 0 <= i < |es[1..]| ensures Translatable(es[1..][i]) {
            assert es[1..][i] == es[i + 1];
          }
        }
      }
      if CExpsToJS(es).Ok? {
        var r := CExpsToJS(es).value;
        forall i | 0 <= i < |es| ensures Translatable(es[i]) && CExpToJS(es[i]) == Ok(r[i]) {
          if i > 0 { assert es[i] == es[1..][i - 1]; }
        }
      }
    }
  }

  /** The operator table: `=` and `eq?` print as `===`, `not` as `!`, `and` as `&&`, `or` as
      `||`, and an operator prints as itself exactly when it is none of those five. */
  lemma PrimOpToJSTable(op: string)
    ensures PrimOpToJS("=") == "===" && PrimOpToJS("eq?") == "===" && PrimOpToJS("not") == "!"
    ensures PrimOpToJS("and") == "&&" && PrimOpToJS("or") == "||"
    ensures PrimOpToJS(op) == op <==> op !in ["=", "eq?", "not", "and", "or"]
  {
  }

  /** A definition prints as `const NAME = VAL` exactly when its value translates. */
  lemma DefineToJSShape(name: string, val: CExp)
    ensures DefineToJS(name, val).Ok? <==> Translatable(val)
    ensures Translatable(val) ==> DefineToJS(name, val) == Ok("const " + name + " = " + CExpToJS(val).value)
  {
    TranslatableIff(val);
  }

  /** Every form translates exactly when its expression does. */
  lemma FormTranslatable(x: Exp)
    ensures ExpToJS(x).Ok? <==> Translatable(FormExp(x))
  {
    TranslatableIff(FormExp(x));
  }

  /** A program translates exactly when every form does, to the forms' translations in order
      joined by `;` and a newline; one untranslatable form fails the whole program. */
  lemma {:induction false} ProgramToJSFormByForm(xs: seq<Exp>)
    ensures ExpsToJS(xs).Ok? <==> forall i :: 0 <= i < |xs| ==> ExpToJS(xs[i]).Ok?
    ensures ExpsToJS(xs).Ok? ==>
              |ExpsToJS(xs).value| == |xs| &&
              (forall i :: 0 <= i < |xs| ==> ExpToJS(xs[i]) == Ok(ExpsToJS(xs).value[i])) &&
              ProgramToJS(Program(xs)) == Ok(Join(ExpsToJS(xs).value, ";\n"))
    ensures ExpsToJS(xs).Failure? ==> ProgramToJS(Program(xs)).Failure?
  {
    if xs != [] {
      ProgramToJSFormByForm(xs[1..]);
      if forall i :: 0 <= i < |xs| ==> ExpToJS(xs[i]).Ok? {
        forall i | 0 <= i < |xs[1..]| ensures ExpToJS(xs[1..][i]).Ok? {
          assert xs[1..][i] == xs[i + 1];
        }
      }
      if ExpsToJS(xs).Ok? {
        var r := ExpsToJS(xs).value;
        forall i | 0 <= i < |xs| ensures ExpToJS(xs[i]) == Ok(r[i]) {
          if i > 0 { assert xs[i] == xs[1..][i - 1]; }
        }
      }
    }
  }

  // ================================================================ balanced parentheses

  /** Opening minus closing parentheses. */
  function Depth(s: string): int
  {
    if s == [] then 0
    else Depth(s[..|s| - 1]) + (if s[|s| - 1] == '(' then 1 else if s[|s| - 1] == ')' then -1 else 0)
  }

  /** The least depth over all prefixes of `s` (the empty prefix included). */
  function Low(s: string): int
  {
    if s == [] then 0
    else Min(Low(s[..|s| - 1]), Depth(s))
  }

  function Min(a: int, b: int): int
  {
    if a <= b then a else b
  }

  /** No prefix closes more parentheses than it opens, and the whole string closes all it
      opens. */
  predicate Balanced(s: string)
  {
    Depth(s) == 0 && Low(s) >= 0
  }

  predicate ParenFree(s: string)
  {
    forall i :: 0 <= i < |s| ==> s[i] != '(' && s[i] != ')'
  }

  /** `Low` is the least prefix depth: no prefix goes below it and some prefix reaches it. */
  lemma {:induction false} LowIsLeastPrefixDepth(s: string)
    ensures forall k :: 0 <= k <= |s| ==> Low(s) <= Depth(s[..k])
    ensures exists k :: 0 <= k <= |s| && Low(s) == Depth(s[..k])
    decreases |s|
  {
    if s == [] {
      assert s[..0] == s;
    } else {
      var t := s[..|s| - 1];
      LowIsLeastPrefixDepth(t);
      forall k | 0 <= k <= |s| ensures Low(s) <= Depth(s[..k]) {
        if k < |s| {
          assert s[..k] == t[..k];
        } else {
          assert s[..k] == s;
        }
      }
      if Low(t) <= Depth(s) {
        var k :| 0 <= k <= |t| && Low(t) == Depth(t[..k]);
        assert s[..k] == t[..k];
      } else {
        assert s[..|s|] == s;
      }
    }
  }

  lemma DepthAppend(a: string, b: string)
    ensures Depth(a + b) == Depth(a) + Depth(b)
    ensures Low(a + b) == Min(Low(a), Depth(a) + Low(b))
  {
    DepthOfAppend(a, b);
    LowOfAppend(a, b);
  }

  lemma {:induction false} DepthOfAppend(a: string, b: string)
    ensures Depth(a + b) == Depth(a) + Depth(b)
    decreases |b|
  {
    if b != [] {
      var b' := b[..|b| - 1];
      assert (a + b)[..|a + b| - 1] == a + b';
      assert (a + b)[|a + b| - 1] == b[|b| - 1];
      DepthOfAppend(a, b');
    } else {
      assert a + b == a;
    }
  }

  lemma {:induction false} LowOfAppend(a: string, b: string)
    ensures Low(a + b) == Min(Low(a), Depth(a) + Low(b))
    decreases |b|
  {
    if b != [] {
      var b' := b[..|b| - 1];
      assert (a + b)[..|a + b| - 1] == a + b';
      LowOfAppend(a, b');
      DepthOfAppend(a, b);
      assert Low(a + b) == Min(Low(a + b'), Depth(a + b));
    } else {
      assert a + b == a;
    }
  }

  lemma {:induction false} ParenFreeBalanced(s: string)
    requires ParenFree(s)
    ensures Depth(s) == 0 && Low(s) == 0
    decreases |s|
  {
    if s != [] {
      ParenFreeBalanced(s[..|s| - 1]);
    }
  }

  lemma BalancedConcat(a: string, b: string)
    requires Balanced(a) && Balanced(b)
    ensures Balanced(a + b)
  {
    DepthAppend(a, b);
  }

  lemma BalancedWrap(s: string)
    requires Balanced(s)
    ensures Balanced("(" + s + ")")
  {
    DepthAppend("(", s);
    DepthAppend("(" + s, ")");
    assert Depth("(") == 1 && Low("(") == 0;
    assert Depth(")") == -1 && Low(")") == -1;
  }

  /** Text around a balanced middle: the parts joined together stay balanced when every
      fixed part is free of parentheses. */
  lemma BalancedAround(pre: string, mid: string, post: string)
    requires ParenFree(pre) && Balanced(mid) && ParenFree(post)
    ensures Balanced(pre + mid + post)
  {
    ParenFreeBalanced(pre);
    ParenFreeBalanced(post);
    BalancedConcat(pre, mid);
    BalancedConcat(pre + mid, post);
  }

  lemma BalancedThen(a: string, sep: string)
    requires Balanced(a) && ParenFree(sep)
    ensures Balanced(a + sep)
  {
    ParenFreeBalanced(sep);
    BalancedConcat(a, sep);
  }

  lemma {:induction false} BalancedJoin(xs: seq<string>, sep: string)
    requires ParenFree(sep)
    requires forall i :: 0 <= i < |xs| ==> Balanced(xs[i])
    ensures Balanced(Join(xs, sep))
  {
    if |xs| == 0 {
      ParenFreeBalanced("");
    } else if |xs| > 1 {
      BalancedJoin(xs[1..], sep);
      ParenFreeBalanced(sep);
      BalancedConcat(xs[0], sep);
      BalancedConcat(xs[0] + sep, Join(xs[1..], sep));
    }
  }

  /** Names, strings and operator names of `e` contain no parentheses. */
  predicate AtomsParenFree(e: CExp)
  {
    match e
    case AppExp(rator, rands) => AtomsParenFree(rator) && forall i :: 0 <= i < |rands| ==> AtomsParenFree(rands[i])
    case IfExp(t, c, a) => AtomsParenFree(t) && AtomsParenFree(c) && AtomsParenFree(a)
    case ProcExp(params, body) =>
      (forall i :: 0 <= i < |params| ==> ParenFree(params[i])) &&
      forall i :: 0 <= i < |body| ==> AtomsParenFree(body[i])
    case StrExp(s) => ParenFree(s)
    case VarRef(x) => ParenFree(x)
    case PrimOp(op) => ParenFree(op)
    case _ => true
  }

  lemma IntToStringParenFree(n: int)
    ensures ParenFree(IntToString(n))
  {
    NatToStringRoundTrip(if n < 0 then -n else n);
    var d := NatToString(if n < 0 then -n else n);
    if n < 0 {
      assert IntToString(n) == "-" + d;
      assert forall i :: 1 <= i < |IntToString(n)| ==> IntToString(n)[i] == d[i - 1];
    }
  }

  lemma PrimAppBalanced(op: string, args: seq<string>)
    requires ParenFree(op) && forall i :: 0 <= i < |args| ==> Balanced(args[i])
    ensures Balanced(PrimAppToJS(op, args))
  {
    if |args| == 0 { ParenFreeBalanced(First(args)); }
    if op == "not" {
      NotShapeBalanced(First(args));
    } else if op == "number?" || op == "boolean?" {
      TypeTestBalanced(op, args);
    } else {
      InfixBalanced(op, args);
    }
  }

  lemma TypeTestBalanced(op: string, args: seq<string>)
    requires op == "number?" || op == "boolean?"
    requires Balanced(First(args))
    ensures Balanced(PrimAppToJS(op, args))
  {
    var kind := if op == "number?" then "number" else "boolean";
    TypeofShapeBalanced(First(args), kind);
    assert PrimAppToJS(op, args) == "(typeof " + First(args) + " === \"" + kind + "\")";
  }

  lemma InfixBalanced(op: string, args: seq<string>)
    requires op != "not" && op != "number?" && op != "boolean?"
    requires ParenFree(op) && forall i :: 0 <= i < |args| ==> Balanced(args[i])
    ensures Balanced(PrimAppToJS(op, args))
  {
    assert ParenFree(PrimOpToJS(op));
    var sep := " " + PrimOpToJS(op) + " ";
    BalancedJoin(args, sep);
    BalancedWrap(Join(args, sep));
  }

  /** `(!a)` */
  lemma NotShapeBalanced(a: string)
    requires Balanced(a)
    ensures Balanced("(!" + a + ")")
  {
    BalancedAround("!", a, "");
    BalancedWrap("!" + a + "");
    assert "(" + ("!" + a + "") + ")" == "(!" + a + ")";
  }

  /** `(typeof a === "kind")` */
  lemma TypeofShapeBalanced(a: string, kind: string)
    requires Balanced(a) && ParenFree(kind)
    ensures Balanced("(typeof " + a + " === \"" + kind + "\")")
  {
    var tail := " === \"" + kind + "\"";
    assert ParenFree(tail);
    BalancedAround("typeof ", a, tail);
    BalancedWrap("typeof " + a + tail);
    assert "(" + ("typeof " + a + tail) + ")" == "(typeof " + a + " === \"" + kind + "\")";
  }

  lemma CallBalanced(rator: string, args: seq<string>)
    requires Balanced(rator) && forall i :: 0 <= i < |args| ==> Balanced(args[i])
    ensures Balanced(rator + "(" + Join(args, ",") + ")")
  {
    BalancedJoin(args, ",");
    CallShapeBalanced(rator, Join(args, ","));
  }

  /** `rator(args)` */
  lemma CallShapeBalanced(rator: string, args: string)
    requires Balanced(rator) && Balanced(args)
    ensures Balanced(rator + "(" + args + ")")
  {
    BalancedWrap(args);
    BalancedConcat(rator, "(" + args + ")");
    assert rator + ("(" + args + ")") == rator + "(" + args + ")";
  }

  lemma IfBalanced(ts: string, cs: string, alt: string)
    requires Balanced(ts) && Balanced(cs) && Balanced(alt)
    ensures Balanced("(" + ts + " ? " + cs + " : " + alt + ")")
  {
    BalancedThen(ts, " ? ");
    BalancedConcat(ts + " ? ", cs);
    BalancedThen(ts + " ? " + cs, " : ");
    BalancedConcat(ts + " ? " + cs + " : ", alt);
    BalancedWrap(ts + " ? " + cs + " : " + alt);
    assert "(" + (ts + " ? " + cs + " : " + alt) + ")" == "(" + ts + " ? " + cs + " : " + alt + ")";
  }

  lemma ProcBalanced(params: seq<string>, bs: seq<string>)
    requires forall i :: 0 <= i < |params| ==> ParenFree(params[i])
    requires forall i :: 0 <= i < |bs| ==> Balanced(bs[i])
    ensures Balanced("((" + Join(params, ",") + ") => " + ProcBody(bs) + ")")
  {
    ParamsBalanced(params);
    ProcBodyBalanced(bs);
    ArrowShapeBalanced(Join(params, ","), ProcBody(bs));
  }

  lemma ParamsBalanced(params: seq<string>)
    requires forall i :: 0 <= i < |params| ==> ParenFree(params[i])
    ensures Balanced(Join(params, ","))
  {
    forall i | 0 <= i < |params| ensures Balanced(params[i]) {
      ParenFreeBalanced(params[i]);
    }
    BalancedJoin(params, ",");
  }

  lemma ProcBodyBalanced(bs: seq<string>)
    requires forall i :: 0 <= i < |bs| ==> Balanced(bs[i])
    ensures Balanced(ProcBody(bs))
  {
    if |bs| != 1 {
      BalancedJoin(bs, ";\n");
      BalancedAround("{\n", Join(bs, ";\n"), "\n}");
    }
  }

  /** `((params) => body)` */
  lemma ArrowShapeBalanced(params: string, body: string)
    requires Balanced(params) && Balanced(body)
    ensures Balanced("((" + params + ") => " + body + ")")
  {
    BalancedWrap(params);
    var head := "(" + params + ")";
    BalancedThen(head, " => ");
    BalancedConcat(head + " => ", body);
    BalancedWrap(head + " => " + body);
    assert "(" + (head + " => " + body) + ")" == "((" + params + ") => " + body + ")";
  }

  /** Whatever the printer produces for an expression whose names and strings hold no
      parentheses has balanced parentheses. */
  lemma {:induction false} TranslationBalanced(e: CExp)
    requires AtomsParenFree(e) && CExpToJS(e).Ok?
    ensures Balanced(CExpToJS(e).value)
    decreases Size(e), 0
  {
    match e
    case AppExp(rator, rands) =>
      TranslationListBalanced(rands);
      var args := CExpsToJS(rands).value;
      if rator.PrimOp? {
        PrimAppBalanced(rator.op, args);
      } else {
        TranslationBalanced(rator);
        CallBalanced(CExpToJS(rator).value, args);
      }
    case IfExp(t, c, a) =>
      TranslationBalanced(t);
      TranslationBalanced(c);
      TranslationBalanced(a);
      IfBalanced(CExpToJS(t).value, CExpToJS(c).value, CExpToJS(a).value);
    case ProcExp(params, body) =>
      TranslationListBalanced(body);
      ProcBalanced(params, CExpsToJS(body).value);
    case NumExp(n) =>
      IntToStringParenFree(n);
      ParenFreeBalanced(IntToString(n));
    case StrExp(str) =>
      assert ParenFree("\"" + str + "\"");
      ParenFreeBalanced("\"" + str + "\"");
    case BoolExp(b) =>
      ParenFreeBalanced(CExpToJS(e).value);
    case VarRef(x) =>
      ParenFreeBalanced(x);
    case PrimOp(op) =>
      assert ParenFree(PrimOpToJS(op));
      ParenFreeBalanced(PrimOpToJS(op));
  }

  lemma {:induction false} TranslationListBalanced(es: seq<CExp>)
    requires forall i :: 0 <= i < |es| ==> AtomsParenFree(es[i])
    requires CExpsToJS(es).Ok?
    ensures |CExpsToJS(es).value| == |es|
    ensures forall i :: 0 <= i < |es| ==> Balanced(CExpsToJS(es).value[i])
    decreases SizeList(es), 1
  {
    TranslatableListIff(es);
    var r := CExpsToJS(es).value;
    forall i | 0 <= i < |es| ensures Balanced(r[i]) {
      assert Size(es[i]) <= SizeList(es) by { SizeListElement(es, i); }
      TranslationBalanced(es[i]);
    }
  }

  lemma {:induction false} SizeListElement(es: seq<CExp>, i: int)
    requires 0 <= i < |es|
    ensures Size(es[i]) <= SizeList(es)
  {
    if i > 0 {
      SizeListElement(es[1..], i - 1);
    }
  }

  // ================================================================ examples

  /** Two translatable operands give the list of their two translations. */
  lemma TwoOperands(a: CExp, b: CExp)
    requires CExpToJS(a).Ok? && CExpToJS(b).Ok?
    ensures CExpsToJS([a, b]) == Ok([CExpToJS(a).value, CExpToJS(b).value])
  {
    TranslatableIff(a);
    TranslatableIff(b);
    var es := [a, b];
    assert Translatable(es[0]) && Translatable(es[1]);
    TranslatableListIff(es);
    var r := CExpsToJS(es).value;
    assert CExpToJS(es[0]) == Ok(r[0]) && CExpToJS(es[1]) == Ok(r[1]);
    assert r == [r[0], r[1]];
  }

  lemma OneOperand(a: CExp)
    requires CExpToJS(a).Ok?
    ensures CExpsToJS([a]) == Ok([CExpToJS(a).value])
  {
    TranslatableIff(a);
    var es := [a];
    assert Translatable(es[0]);
    TranslatableListIff(es);
    var r := CExpsToJS(es).value;
    assert CExpToJS(es[0]) == Ok(r[0]);
    assert r == [r[0]];
  }

  /** `(+ x y)` prints as `(x + y)`. */
  lemma SumExample()
    ensures CExpToJS(AppExp(PrimOp("+"), [VarRef("x"), VarRef("y")])) == Ok("(x + y)")
  {
    TwoOperands(VarRef("x"), VarRef("y"));
    assert " " + PrimOpToJS("+") + " " == " + ";
    assert Join(["x", "y"], " + ") == "x + y";
    assert "(" + "x + y" + ")" == "(x + y)";
    assert PrimAppToJS("+", ["x", "y"]) == "(x + y)";
  }

  /** `(lambda (x y) (+ x y))` prints as `((x,y) => (x + y))`. */
  lemma LambdaExample()
    ensures CExpToJS(ProcExp(["x", "y"], [AppExp(PrimOp("+"), [VarRef("x"), VarRef("y")])]))
            == Ok("((x,y) => (x + y))")
  {
    var sum := AppExp(PrimOp("+"), [VarRef("x"), VarRef("y")]);
    SumExample();
    OneOperand(sum);
    LambdaExampleText();
  }

  lemma LambdaExampleText()
    ensures "((" + Join(["x", "y"], ",") + ") => " + ProcBody(["(x + y)"]) + ")" == "((x,y) => (x + y))"
  {
    assert Join(["x", "y"], ",") == "x,y";
    assert ProcBody(["(x + y)"]) == "(x + y)";
    assert "((" + "x,y" + ") => " + "(x + y)" + ")" == "((x,y) => (x + y))";
  }

  /** `(lambda (x) (f x) (g x))`: several body expressions print as a block whose
      statements are joined by `;` and a newline. */
  lemma BlockLambdaExample()
    ensures CExpToJS(ProcExp(["x"], [AppExp(VarRef("f"), [VarRef("x")]), AppExp(VarRef("g"), [VarRef("x")])]))
            == Ok("((x) => {\nf(x);\ng(x)\n})")
  {
    var fx := AppExp(VarRef("f"), [VarRef("x")]);
    var gx := AppExp(VarRef("g"), [VarRef("x")]);
    CallOfVariable("f", "x");
    CallOfVariable("g", "x");
    assert "f" + "(" + "x" + ")" == "f(x)" && "g" + "(" + "x" + ")" == "g(x)";
    TwoOperands(fx, gx);
    var e := ProcExp(["x"], [fx, gx]);
    assert CExpsToJS(e.body) == Ok(["f(x)", "g(x)"]);
    BlockLambdaExampleText();
    assert ProcToJS(e) == Ok("((x) => {\nf(x);\ng(x)\n})");
  }

  /** `(f x)` prints as `f(x)`. */
  lemma CallOfVariable(f: string, x: string)
    ensures CExpToJS(AppExp(VarRef(f), [VarRef(x)])) == Ok(f + "(" + x + ")")
  {
    var e := AppExp(VarRef(f), [VarRef(x)]);
    assert CExpToJS(VarRef(x)) == Ok(x);
    OneOperand(VarRef(x));
    assert CExpsToJS(e.rands) == Ok([x]);
    assert CExpToJS(e.rator) == Ok(f);
    assert Join([x], ",") == x;
    assert AppToJS(e) == Ok(f + "(" + x + ")");
  }

  lemma BlockLambdaExampleText()
    ensures "((" + Join(["x"], ",") + ") => " + ProcBody(["f(x)", "g(x)"]) + ")" == "((x) => {\nf(x);\ng(x)\n})"
  {
    BlockText("x", "f(x)", "g(x)");
    assert "((" + "x" + ") => {\n" + "f(x)" + ";\n" + "g(x)" + "\n})" == "((x) => {\nf(x);\ng(x)\n})";
  }

  /** A one-parameter arrow over a two-statement block. */
  lemma BlockText(param: string, a: string, b: string)
    ensures "((" + Join([param], ",") + ") => " + ProcBody([a, b]) + ")"
            == "((" + param + ") => {\n" + a + ";\n" + b + "\n})"
  {
    assert [a, b][1..] == [b];
    assert Join([a, b], ";\n") == a + ";\n" + b;
  }

  /** `(define f (lambda (x y) (+ x y)))` prints as `const f = ((x,y) => (x + y))`. */
  lemma DefineProcExample()
    ensures DefineToJS("f", ProcExp(["x", "y"], [AppExp(PrimOp("+"), [VarRef("x"), VarRef("y")])]))
            == Ok("const f = ((x,y) => (x + y))")
  {
    LambdaExample();
    assert "const " + "f" + " = " + "((x,y) => (x + y))" == "const f = ((x,y) => (x + y))";
  }

  /** `(> x 0)` prints as `(x > 0)`. */
  lemma GreaterExample()
    ensures CExpToJS(AppExp(PrimOp(">"), [VarRef("x"), NumExp(0)])) == Ok("(x > 0)")
  {
    assert IntToString(0) == "0";
    TwoOperands(VarRef("x"), NumExp(0));
    assert " " + PrimOpToJS(">") + " " == " > ";
    assert Join(["x", "0"], " > ") == "x > 0";
    assert "(" + "x > 0" + ")" == "(x > 0)";
    assert PrimAppToJS(">", ["x", "0"]) == "(x > 0)";
  }

  /** `(- 0 x)` prints as `(0 - x)`. */
  lemma MinusExample()
    ensures CExpToJS(AppExp(PrimOp("-"), [NumExp(0), VarRef("x")])) == Ok("(0 - x)")
  {
    assert IntToString(0) == "0";
    TwoOperands(NumExp(0), VarRef("x"));
    assert " " + PrimOpToJS("-") + " " == " - ";
    assert Join(["0", "x"], " - ") == "0 - x";
    assert "(" + "0 - x" + ")" == "(0 - x)";
    assert PrimAppToJS("-", ["0", "x"]) == "(0 - x)";
  }

  /** `(if (> x 0) x (- 0 x))` prints as `((x > 0) ? x : (0 - x))`. */
  lemma IfExample()
    ensures CExpToJS(IfExp(AppExp(PrimOp(">"), [VarRef("x"), NumExp(0)]), VarRef("x"),
                           AppExp(PrimOp("-"), [NumExp(0), VarRef("x")])))
            == Ok("((x > 0) ? x : (0 - x))")
  {
    var t, a := AppExp(PrimOp(">"), [VarRef("x"), NumExp(0)]), AppExp(PrimOp("-"), [NumExp(0), VarRef("x")]);
    GreaterExample();
    MinusExample();
    IfOfTranslated(t, VarRef("x"), a);
    IfExampleText();
  }

  lemma IfExampleText()
    ensures "(" + "(x > 0)" + " ? " + "x" + " : " + "(0 - x)" + ")" == "((x > 0) ? x : (0 - x))"
  {
  }

  /** A conditional whose three parts translate prints as the conditional operator over
      their texts. */
  lemma IfOfTranslated(t: CExp, c: CExp, a: CExp)
    requires CExpToJS(t).Ok? && CExpToJS(c).Ok? && CExpToJS(a).Ok?
    ensures CExpToJS(IfExp(t, c, a)) ==
            Ok("(" + CExpToJS(t).value + " ? " + CExpToJS(c).value + " : " + CExpToJS(a).value + ")")
  {
  }

  /** Atoms: booleans print as `true` or `false`, a string is wrapped in double quotes with
      no escaping, and a variable reference prints its name. */
  lemma AtomTexts(s: string, b: bool, x: string)
    ensures CExpToJS(StrExp(s)) == Ok("\"" + s + "\"")
    ensures CExpToJS(BoolExp(b)) == Ok(if b then "true" else "false")
    ensures CExpToJS(BoolExp(false)) == Ok("false")
    ensures CExpToJS(VarRef(x)) == Ok(x)
  {
  }

  /** A string holding a double quote is printed unescaped, so the quote closes the
      JavaScript literal early: `"say "hi""`. */
  lemma UnescapedStringExample()
    ensures CExpToJS(StrExp("say \"hi\"")) == Ok("\"say \"hi\"\"")
  {
    AtomTexts("say \"hi\"", false, "");
    assert "\"" + "say \"hi\"" + "\"" == "\"say \"hi\"\"";
  }

  /** The unary primitives print as `!` and as `typeof` tests over the operand's text;
      `(boolean? a)` tests for `"boolean"`. */
  lemma UnaryPrimTexts(a: CExp)
    requires CExpToJS(a).Ok?
    ensures CExpToJS(AppExp(PrimOp("not"), [a])) == Ok("(!" + CExpToJS(a).value + ")")
    ensures CExpToJS(AppExp(PrimOp("number?"), [a])) == Ok("(typeof " + CExpToJS(a).value + " === \"number\")")
    ensures CExpToJS(AppExp(PrimOp("boolean?"), [a])) == Ok("(typeof " + CExpToJS(a).value + " === \"boolean\")")
  {
    OneOperand(a);
  }

  /** `(not #t)` prints as `(!true)`. */
  lemma NotExample()
    ensures CExpToJS(AppExp(PrimOp("not"), [BoolExp(true)])) == Ok("(!true)")
  {
    OneOperand(BoolExp(true));
    assert PrimAppToJS("not", ["true"]) == "(!true)";
  }

  /** `(number? 5)` prints as a `typeof` test. */
  lemma TypeTestExample()
    ensures CExpToJS(AppExp(PrimOp("number?"), [NumExp(5)])) == Ok("(typeof 5 === \"number\")")
  {
    assert IntToString(5) == "5";
    OneOperand(NumExp(5));
    assert "(typeof " + "5" + " === \"number\")" == "(typeof 5 === \"number\")";
    assert PrimAppToJS("number?", ["5"]) == "(typeof 5 === \"number\")";
  }

  /** `(f 1 2)` prints as the call `f(1,2)`. */
  lemma CallExample()
    ensures CExpToJS(AppExp(VarRef("f"), [NumExp(1), NumExp(2)])) == Ok("f(1,2)")
  {
    assert IntToString(1) == "1" && IntToString(2) == "2";
    TwoOperands(NumExp(1), NumExp(2));
    assert Join(["1", "2"], ",") == "1,2";
    assert "f" + "(" + "1,2" + ")" == "f(1,2)";
  }

  /** A two-form program prints its forms joined by `;` and a newline. */
  lemma ProgramExample()
    ensures ProgramToJS(Program([Define("a", NumExp(1)), Expr(AppExp(PrimOp("*"), [VarRef("a"), NumExp(2)]))]))
            == Ok("const a = 1;\n(a * 2)")
  {
    var xs := [Define("a", NumExp(1)), Expr(AppExp(PrimOp("*"), [VarRef("a"), NumExp(2)]))];
    assert IntToString(1) == "1" && IntToString(2) == "2";
    TwoOperands(VarRef("a"), NumExp(2));
    assert PrimOpToJS("*") == "*";
    assert " " + PrimOpToJS("*") + " " == " * ";
    assert Join(["a", "2"], " * ") == "a * 2";
    assert "(" + "a * 2" + ")" == "(a * 2)";
    assert PrimAppToJS("*", ["a", "2"]) == "(a * 2)";
    assert "const " + "a" + " = " + "1" == "const a = 1";
    assert ExpToJS(xs[0]) == Ok("const a = 1");
    assert ExpToJS(xs[1]) == Ok("(a * 2)");
    ProgramToJSFormByForm(xs);
    var lines := ExpsToJS(xs).value;
    assert lines == [lines[0], lines[1]] == ["const a = 1", "(a * 2)"];
    assert Join(["const a = 1", "(a * 2)"], ";\n") == "const a = 1;\n(a * 2)";
  }

  /** Quoted literals and `let` are outside what the printer handles, and one such form
      fails a whole program. */
  lemma UnknownExamples(d: Value, bs: seq<Binding>, body: seq<CExp>)
    ensures CExpToJS(LitExp(d)) == Failure(UnknownCExp)
    ensures CExpToJS(LetExp(bs, body)) == Failure(UnknownCExp)
    ensures ProgramToJS(Program([Expr(NumExp(1)), Expr(LitExp(d))])).Failure?
  {
    var xs := [Expr(NumExp(1)), Expr(LitExp(d))];
    assert ExpToJS(xs[1]).Failure?;
    ProgramToJSFormByForm(xs);
  }
}
