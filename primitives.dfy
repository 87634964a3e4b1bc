/** The primitive-operation table (L31 `applyPrimitive`), including the association-list
    dictionary primitives `dict`, `get` and `dict?`. */
module Primitives {
  import opened Results
  import opened Lang

  /** Host arithmetic the model does not interpret: a division whose quotient is not an
      integer (or whose divisor is zero) produces a host floating-point number, and `>`/`<`
      on operands that are not both numbers follow the host's coercion rules. */
  datatype Host = Host(
    inexactQuotient: (int, int) -> Value,
    greater: (Value, Value) -> bool,
    less: (Value, Value) -> bool)

  /** `args[i]`, which is the host's `undefined` when `i` is out of range. */
  function Arg(args: seq<Value>, i: nat): (v: Value)
    ensures i < |args| ==> v == args[i]
    ensures i >= |args| ==> v == Undefined
  {
    if i < |args| then args[i] else Undefined
  }

  predicate AllNumbers(args: seq<Value>)
  {
    forall i :: 0 <= i < |args| ==> args[i].Num?
  }

  /** The host's truthiness: `false`, 0, the empty string and `undefined` are falsy. */
  predicate Truthy(v: Value)
  {
    v != Bool(false) && v != Num(0) && v != Str("") && v != Undefined
  }

  /** The host's strict equality `===`; object identity is modelled as equality of values. */
  predicate StrictEquals(a: Value, b: Value)
  {
    a == b
  }

  function ApplyPrimitive(host: Host, op: string, args: seq<Value>): Result<Value>
  {
    if op == "+" then
      (if AllNumbers(args) then Ok(Num(FoldSum(0, args))) else Failure(TypeError))
    else if op == "-" then MinusPrim(args)
    else if op == "*" then
      (if AllNumbers(args) then Ok(Num(FoldProduct(1, args))) else Failure(TypeError))
    else if op == "/" then DivPrim(host, args)
    else if op == ">" then
      Ok(Bool(if Arg(args, 0).Num? && Arg(args, 1).Num? then Arg(args, 0).n > Arg(args, 1).n
              else host.greater(Arg(args, 0), Arg(args, 1))))
    else if op == "<" then
      Ok(Bool(if Arg(args, 0).Num? && Arg(args, 1).Num? then Arg(args, 0).n < Arg(args, 1).n
              else host.less(Arg(args, 0), Arg(args, 1))))
    else if op == "=" then Ok(Bool(StrictEquals(Arg(args, 0), Arg(args, 1))))
    else if op == "not" then Ok(Bool(!Truthy(Arg(args, 0))))
    else if op == "and" then
      (if Arg(args, 0).Bool? && Arg(args, 1).Bool? then Ok(Bool(Arg(args, 0).b && Arg(args, 1).b))
       else Failure(TypeError))
    else if op == "or" then
      (if Arg(args, 0).Bool? && Arg(args, 1).Bool? then Ok(Bool(Arg(args, 0).b || Arg(args, 1).b))
       else Failure(TypeError))
    else if op == "eq?" then Ok(Bool(EqPrim(args)))
    else if op == "string=?" then Ok(Bool(StrictEquals(Arg(args, 0), Arg(args, 1))))
    else if op == "cons" then Ok(ConsPrim(Arg(args, 0), Arg(args, 1)))
    else if op == "car" then CarPrim(Arg(args, 0))
    else if op == "cdr" then CdrPrim(Arg(args, 0))
    else if op == "list" then Ok(ListPrim(args))
    else if op == "pair?" then Ok(Bool(Arg(args, 0).Pair?))
    else if op == "number?" then Ok(Bool(Arg(args, 0).Num?))
    else if op == "boolean?" then Ok(Bool(Arg(args, 0).Bool?))
    else if op == "symbol?" then Ok(Bool(Arg(args, 0).Symbol?))
    else if op == "string?" then Ok(Bool(Arg(args, 0).Str?))
    else if op == "dict" then Ok(DictPrim(Arg(args, 0)))
    else if op == "get" then GetInDict(Arg(args, 0), Arg(args, 1))
    else if op == "dict?" then Ok(Bool(IsDictPrim(Arg(args, 0))))
    else Failure(BadPrimitive)
  }

  // ---------------------------------------------------------------- arithmetic

  /** `reduce((x, y) => x + y, acc, args)`: a left fold. */
  function FoldSum(acc: int, args: seq<Value>): int
    requires AllNumbers(args)
    decreases args
  {
    if args == [] then acc else FoldSum(acc + args[0].n, args[1..])
  }

  /** `reduce((x, y) => x * y, acc, args)`: a left fold. */
  function FoldProduct(acc: int, args: seq<Value>): int
    requires AllNumbers(args)
    decreases args
  {
    if args == [] then acc else FoldProduct(acc * args[0].n, args[1..])
  }

  /** The sum of a list of numbers, as a reference definition. */
  function Sum(args: seq<Value>): int
    requires AllNumbers(args)
  {
    if args == [] then 0 else args[0].n + Sum(args[1..])
  }

  /** The product of a list of numbers, as a reference definition. */
  function Product(args: seq<Value>): int
    requires AllNumbers(args)
  {
    if args == [] then 1 else args[0].n * Product(args[1..])
  }

  lemma {:induction false} FoldSumIsSum(acc: int, args: seq<Value>)
    requires AllNumbers(args)
    ensures FoldSum(acc, args) == acc + Sum(args)
    decreases args
  {
    if args != [] {
      FoldSumIsSum(acc + args[0].n, args[1..]);
    }
  }

  lemma {:induction false} FoldProductIsProduct(acc: int, args: seq<Value>)
    requires AllNumbers(args)
    ensures FoldProduct(acc, args) == acc * Product(args)
    decreases args
  {
    if args != [] {
      FoldProductIsProduct(acc * args[0].n, args[1..]);
      assert acc * args[0].n * Product(args[1..]) == acc * (args[0].n * Product(args[1..]));
    }
  }

  /** `+` is the sum of all arguments (0 for none) and `*` their product (1 for none);
      either fails with a type error when some argument is not a number. */
  lemma PlusAndTimes(host: Host, args: seq<Value>)
    ensures ApplyPrimitive(host, "+", args) ==
            if AllNumbers(args) then Ok(Num(Sum(args))) else Failure(TypeError)
    ensures ApplyPrimitive(host, "*", args) ==
            if AllNumbers(args) then Ok(Num(Product(args))) else Failure(TypeError)
  {
    if AllNumbers(args) {
      FoldSumIsSum(0, args);
      FoldProductIsProduct(1, args);
    }
  }

  lemma {:induction false} SumAppend(xs: seq<Value>, ys: seq<Value>)
    requires AllNumbers(xs) && AllNumbers(ys)
    ensures AllNumbers(xs + ys) && Sum(xs + ys) == Sum(xs) + Sum(ys)
  {
    assert AllNumbers(xs + ys) by {
      forall i | 0 <= i < |xs + ys| ensures (xs + ys)[i].Num? {
        if i >= |xs| { assert (xs + ys)[i] == ys[i - |xs|]; }
      }
    }
    if xs != [] {
      SumAppend(xs[1..], ys);
      assert (xs + ys)[0] == xs[0] && (xs + ys)[1..] == xs[1..] + ys;
    } else {
      assert xs + ys == ys;
    }
  }

  /** `(+ a b c d)` is `(+ (+ a b) (+ c d))`: the sum primitive splits over any cut of
      its number arguments. */
  lemma PlusSplits(host: Host, xs: seq<Value>, ys: seq<Value>)
    requires AllNumbers(xs) && AllNumbers(ys)
    ensures ApplyPrimitive(host, "+", xs).Ok? && ApplyPrimitive(host, "+", ys).Ok?
    ensures ApplyPrimitive(host, "+", xs + ys) ==
            ApplyPrimitive(host, "+", [ApplyPrimitive(host, "+", xs).value, ApplyPrimitive(host, "+", ys).value])
  {
    SumAppend(xs, ys);
    PlusAndTimes(host, xs);
    PlusAndTimes(host, ys);
    PlusAndTimes(host, xs + ys);
    var pair := [Num(Sum(xs)), Num(Sum(ys))];
    PlusAndTimes(host, pair);
    assert Sum(pair) == Sum(xs) + Sum(ys) by {
      var tail := pair[1..];
      assert tail == [Num(Sum(ys))];
      assert tail[1..] == [];
      assert Sum(tail) == Sum(ys) + Sum(tail[1..]);
    }
  }

  function MinusPrim(args: seq<Value>): Result<Value>
  {
    var x, y := Arg(args, 0), Arg(args, 1);
    if x.Num? && y.Num? then Ok(Num(x.n - y.n)) else Failure(TypeError)
  }

  /** Exact integer quotients are computed; any other quotient is the host's. */
  function DivPrim(host: Host, args: seq<Value>): Result<Value>
  {
    var x, y := Arg(args, 0), Arg(args, 1);
    if x.Num? && y.Num? then
      Ok(if y.n != 0 && x.n % y.n == 0 then Num(x.n / y.n) else host.inexactQuotient(x.n, y.n))
    else Failure(TypeError)
  }

  /** `-` and `/` succeed exactly when the first two arguments are numbers (further
      arguments are ignored); `-` returns their difference and `/` an exact quotient. */
  lemma MinusAndDivide(host: Host, args: seq<Value>)
    ensures ApplyPrimitive(host, "-", args).Ok? <==> Arg(args, 0).Num? && Arg(args, 1).Num?
    ensures ApplyPrimitive(host, "/", args).Ok? <==> Arg(args, 0).Num? && Arg(args, 1).Num?
    ensures ApplyPrimitive(host, "-", args).Failure? ==> ApplyPrimitive(host, "-", args).error == TypeError
    ensures ApplyPrimitive(host, "/", args).Failure? ==> ApplyPrimitive(host, "/", args).error == TypeError
    ensures ApplyPrimitive(host, "-", args).Ok? ==>
            ApplyPrimitive(host, "-", args).value.Num? &&
            ApplyPrimitive(host, "-", args).value.n + args[1].n == args[0].n
    ensures ApplyPrimitive(host, "/", args).Ok? && args[1].n != 0 && args[0].n % args[1].n == 0 ==>
            ApplyPrimitive(host, "/", args).value.Num? &&
            ApplyPrimitive(host, "/", args).value.n * args[1].n == args[0].n
  {
  }

  // ---------------------------------------------------------------- equality

  /** `eq?`: symbols by name, the empty list with itself, numbers, strings and booleans by
      value; every other pairing, two pairs included, is unequal. */
  function EqPrim(args: seq<Value>): bool
  {
    var x, y := Arg(args, 0), Arg(args, 1);
    if x.Symbol? && y.Symbol? then x.name == y.name
    else if x.Empty? && y.Empty? then true
    else if x.Num? && y.Num? then x.n == y.n
    else if x.Str? && y.Str? then x.s == y.s
    else if x.Bool? && y.Bool? then x.b == y.b
    else false
  }

  /** The atoms `eq?` can tell equal. */
  predicate EqComparable(v: Value)
  {
    v.Symbol? || v.Empty? || v.Num? || v.Str? || v.Bool?
  }

  /** `eq?` is value equality restricted to atoms: it is false whenever either argument is a
      pair, closure, primitive, dictionary or other non-atom, even against itself. */
  lemma EqPrimIsAtomEquality(x: Value, y: Value)
    ensures EqPrim([x, y]) <==> EqComparable(x) && x == y
  {
  }

  // ---------------------------------------------------------------- pairs and lists

  function ConsPrim(a: Value, b: Value): (r: Value)
    ensures r.Pair? && r.car == a && r.cdr == b
  {
    Pair(a, b)
  }

  function CarPrim(v: Value): (r: Result<Value>)
    ensures r.Ok? <==> v.Pair?
    ensures r.Ok? ==> r.value == v.car
    ensures r.Failure? ==> r.error == TypeError
  {
    if v.Pair? then Ok(v.car) else Failure(TypeError)
  }

  function CdrPrim(v: Value): (r: Result<Value>)
    ensures r.Ok? <==> v.Pair?
    ensures r.Ok? ==> r.value == v.cdr
    ensures r.Failure? ==> r.error == TypeError
  {
    if v.Pair? then Ok(v.cdr) else Failure(TypeError)
  }

  /** `car` and `cdr` undo `cons`, through the primitive table, and are type errors on
      anything that is not a pair. */
  lemma CarCdrOfCons(host: Host, a: Value, b: Value, v: Value)
    ensures ApplyPrimitive(host, "cons", [a, b]) == Ok(Pair(a, b))
    ensures ApplyPrimitive(host, "car", [Pair(a, b)]) == Ok(a)
    ensures ApplyPrimitive(host, "cdr", [Pair(a, b)]) == Ok(b)
    ensures !v.Pair? ==> ApplyPrimitive(host, "car", [v]) == Failure(TypeError)
    ensures !v.Pair? ==> ApplyPrimitive(host, "cdr", [v]) == Failure(TypeError)
  {
  }

  /** Missing arguments read as `undefined`: `eq?` and `=` against it are false, `-` and
      `car` reject it, `not` of it is true, and it is neither a number nor a pair. The
      `car`, `eq?` and `pair?` cases take the host's pair and symbol tests to be false on
      `undefined`; those tests are defined in `L31-value.ts`, which is not part of this model. */
  lemma MissingArguments(host: Host, x: Value)
    ensures ApplyPrimitive(host, "eq?", [x]) == Ok(Bool(false))
    ensures ApplyPrimitive(host, "=", [x]) == Ok(Bool(x == Undefined))
    ensures ApplyPrimitive(host, "-", [x]) == Failure(TypeError)
    ensures ApplyPrimitive(host, "car", []) == Failure(TypeError)
    ensures ApplyPrimitive(host, "not", []) == Ok(Bool(true))
    ensures ApplyPrimitive(host, "number?", []) == Ok(Bool(false))
    ensures ApplyPrimitive(host, "pair?", []) == Ok(Bool(false))
  {
  }

  /** `list`: a right fold of the arguments into pairs ending in the empty list. */
  function ListPrim(vals: seq<Value>): Value
  {
    if vals == [] then Empty else Pair(vals[0], ListPrim(vals[1..]))
  }

  /** The elements of a chain of pairs, up to the first component that is not a pair. */
  function Spine(v: Value): seq<Value>
  {
    if v.Pair? then [v.car] + Spine(v.cdr) else []
  }

  /** What ends a chain of pairs. */
  function Terminator(v: Value): Value
  {
    if v.Pair? then Terminator(v.cdr) else v
  }

  /** A proper list ends in the empty list. */
  predicate ProperList(v: Value)
  {
    Terminator(v) == Empty
  }

  /** `list` of n values is a proper list of length n whose i-th element is the i-th value. */
  lemma {:induction false} ListPrimSpine(vals: seq<Value>)
    ensures Spine(ListPrim(vals)) == vals
    ensures ProperList(ListPrim(vals))
  {
    if vals != [] {
      ListPrimSpine(vals[1..]);
    }
  }

  // ---------------------------------------------------------------- dictionaries

  /** `dict`: a pair is returned as it is, anything else is wrapped as a one-element list. */
  function DictPrim(v: Value): (r: Value)
    ensures r.Pair?
  {
    if v.Pair? then v else Pair(v, Empty)
  }

  /** `dict` always yields a pair, leaves pairs alone and is idempotent. */
  lemma DictPrimIdempotent(v: Value)
    ensures DictPrim(DictPrim(v)) == DictPrim(v)
    ensures v.Pair? ==> DictPrim(v) == v
    ensures !v.Pair? ==> Spine(DictPrim(v)) == [v] && ProperList(DictPrim(v))
  {
  }

  /** `get`: needs a pair and a symbol key, else fails with a type error. */
  function GetInDict(dict: Value, key: Value): (r: Result<Value>)
    ensures !(dict.Pair? && key.Symbol?) ==> r == Failure(TypeError)
  {
    if dict.Pair? && key.Symbol? then FindInDict(dict, key.name) else Failure(TypeError)
  }

  /** The scan behind `get`: stops at an empty-list element, answers the value of the
      first (symbol . value) element whose symbol is `key`, skips any other element, and
      stops when the chain of pairs ends. */
  function FindInDict(dict: Value, key: string): (r: Result<Value>)
    requires dict.Pair?
    ensures r.Failure? ==> r.error == KeyNotFound
  {
    if dict.car.Empty? then Failure(KeyNotFound)
    else if dict.car.Pair? && dict.car.car.Symbol? && dict.car.car.name == key then Ok(dict.car.cdr)
    else if dict.cdr.Pair? then FindInDict(dict.cdr, key)
    else Failure(KeyNotFound)
  }

  /** `e` is an entry (symbol . value) whose symbol is `key`. */
  predicate Binds(e: Value, key: string)
  {
    e.Pair? && e.car.Symbol? && e.car.name == key
  }

  /** Element `i` of `elems` is the first to bind `key`, and no empty list comes before it. */
  ghost predicate FirstMatch(elems: seq<Value>, key: string, i: int)
  {
    0 <= i < |elems| && Binds(elems[i], key) &&
    forall j :: 0 <= j < i ==> !Binds(elems[j], key) && !elems[j].Empty?
  }

  /** `get` finds exactly the first binding of the key along the chain of pairs, provided
      no empty-list element comes first, and otherwise fails with KeyNotFound. */
  lemma {:induction false} FindInDictFirstMatch(dict: Value, key: string)
    requires dict.Pair?
    ensures forall i :: FirstMatch(Spine(dict), key, i) ==> FindInDict(dict, key) == Ok(Spine(dict)[i].cdr)
    ensures FindInDict(dict, key).Ok? ==> exists i :: FirstMatch(Spine(dict), key, i)
  {
    var s := Spine(dict);
    assert s[0] == dict.car && s[1..] == Spine(dict.cdr);
    if dict.car.Empty? {
    } else if Binds(dict.car, key) {
      assert FirstMatch(s, key, 0);
    } else if dict.cdr.Pair? {
      FindInDictFirstMatch(dict.cdr, key);
      var t := Spine(dict.cdr);
      forall i | FirstMatch(s, key, i) ensures FirstMatch(t, key, i - 1) {
        assert i != 0;
        forall j | 0 <= j < i - 1 ensures !Binds(t[j], key) && !t[j].Empty? {
          assert t[j] == s[j + 1];
        }
      }
      if FindInDict(dict, key).Ok? {
        var k :| FirstMatch(t, key, k);
        assert FirstMatch(s, key, k + 1) by {
          forall j | 0 <= j < k + 1 ensures !Binds(s[j], key) && !s[j].Empty? {
            if j > 0 { assert s[j] == t[j - 1]; }
          }
        }
      }
    } else {
      assert s == [dict.car];
    }
  }

  /** `dict?` */
  function IsDictPrim(v: Value): bool
  {
    v.Pair? && ValidateDict(v)
  }

  function ValidateDict(dict: Value): bool
    requires dict.Pair?
  {
    if dict.cdr.Empty? then IsValidPair(dict.car)
    else IsValidPair(dict.car) && dict.cdr.Pair? && ValidateDict(dict.cdr)
  }

  /** A (symbol . value) entry. */
  predicate IsValidPair(p: Value)
  {
    p.Pair? && p.car.Symbol?
  }

  /** `dict?` holds exactly of non-empty proper lists every element of which is a
      (symbol . value) entry; an improper tail makes it false. */
  lemma {:induction false} IsDictPrimSpec(v: Value)
    ensures IsDictPrim(v) <==>
            ProperList(v) && |Spine(v)| > 0 &&
            forall i :: 0 <= i < |Spine(v)| ==> IsValidPair(Spine(v)[i])
  {
    if v.Pair? {
      var s := Spine(v);
      assert s[0] == v.car && s[1..] == Spine(v.cdr);
      if !v.cdr.Empty? && v.cdr.Pair? {
        var t := Spine(v.cdr);
        IsDictPrimSpec(v.cdr);
        assert IsDictPrim(v) == (IsValidPair(v.car) && IsDictPrim(v.cdr));
        assert ProperList(v) == ProperList(v.cdr);
        assert |s| > 0 && |t| > 0;
        assert (forall i :: 0 <= i < |s| ==> IsValidPair(s[i])) <==>
               IsValidPair(v.car) && (forall i :: 0 <= i < |t| ==> IsValidPair(t[i])) by {
          if forall i :: 0 <= i < |s| ==> IsValidPair(s[i]) {
            forall i | 0 <= i < |t| ensures IsValidPair(t[i]) {
              assert t[i] == s[i + 1];
            }
          }
          if IsValidPair(v.car) && (forall i :: 0 <= i < |t| ==> IsValidPair(t[i])) {
            forall i | 0 <= i < |s| ensures IsValidPair(s[i]) {
              if i > 0 { assert s[i] == t[i - 1]; }
            }
          }
        }
      } else if v.cdr.Empty? {
        assert s == [v.car] && s[0] == v.car;
        assert Terminator(v) == Terminator(v.cdr) == Empty;
        assert IsDictPrim(v) == IsValidPair(v.car);
      } else {
        assert Terminator(v) == v.cdr;
      }
    }
  }

  // ---------------------------------------------------------------- association lists

  /** The association list ((k1 . v1) ... (kn . vn)) with symbol keys. */
  function Alist(entries: seq<(string, Value)>): Value
  {
    ListPrim(seq(|entries|, i requires 0 <= i < |entries| => Pair(Symbol(entries[i].0), entries[i].1)))
  }

  /** First-match lookup in a list of (key, value) entries. */
  function Lookup(entries: seq<(string, Value)>, key: string): Result<Value>
  {
    if entries == [] then Failure(KeyNotFound)
    else if entries[0].0 == key then Ok(entries[0].1)
    else Lookup(entries[1..], key)
  }

  /** For every non-empty association list with symbol keys, `dict?` holds, and `get` on
      `dict` of it returns the value of the first entry with the key (first match wins
      under duplicate keys) and fails with KeyNotFound when no entry has it. */
  lemma {:induction false} GetFromAlist(entries: seq<(string, Value)>, key: string)
    requires |entries| > 0
    ensures IsDictPrim(DictPrim(Alist(entries)))
    ensures GetInDict(DictPrim(Alist(entries)), Symbol(key)) == Lookup(entries, key)
  {
    var elems := seq(|entries|, i requires 0 <= i < |entries| => Pair(Symbol(entries[i].0), entries[i].1));
    var d := Alist(entries);
    ListPrimSpine(elems);
    assert d.Pair?;
    assert DictPrim(d) == d;
    IsDictPrimSpec(d);
    AlistLookup(entries, key);
  }

  lemma {:induction false} AlistLookup(entries: seq<(string, Value)>, key: string)
    requires |entries| > 0
    ensures Alist(entries).Pair?
    ensures FindInDict(Alist(entries), key) == Lookup(entries, key)
  {
    var elems := seq(|entries|, i requires 0 <= i < |entries| => Pair(Symbol(entries[i].0), entries[i].1));
    var tailElems := seq(|entries| - 1, i requires 0 <= i < |entries| - 1 => Pair(Symbol(entries[1..][i].0), entries[1..][i].1));
    assert elems[1..] == tailElems;
    assert Alist(entries) == Pair(elems[0], ListPrim(tailElems));
    if entries[0].0 != key && |entries| > 1 {
      AlistLookup(entries[1..], key);
    }
  }
}
