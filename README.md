# L32 dictionaries: evaluator, primitives, lowering to L3 and the L3-to-JavaScript printer

This project models four parts of a Scheme-like teaching-language toolchain.

- **L32 evaluator** (`Eval`, from `src/L32/L32-eval.ts`). L32 is L3 extended with dictionary
  expressions `(dict (a 1) (b 2))`. The evaluator is applicative-order and uses the
  substitution model. A dictionary expression evaluates to a dictionary value. Applying a
  dictionary value to one key looks the key up.
- **Primitive table** (`Primitives`, from `src/L31/evalPrimitive.ts`). It covers arithmetic,
  comparisons, the logical operators, `eq?`, the pair primitives `cons`/`car`/`cdr`/`list`,
  the type predicates, and the association-list dictionary primitives `dict`, `get` and
  `dict?`.
- **Dictionary lowering** (`Lowering`, from `src/q24.ts`). It turns every `DictExp` into an
  application of `dict` to a quoted association list. It turns an application whose
  operator is a `DictExp` into a call of `get`. Then it prepends the prelude program that
  defines `dict` and `get` in L3.
- **L3-to-JavaScript printer** (`ToJS`, from `src/q3.ts`). Definitions become `const`
  declarations. `if` becomes the conditional operator. Procedures become arrow functions.
  Primitive applications become infix chains, `!`, or `typeof` tests.

Supporting modules:

- `Results` holds the `Result`/`Option` types and the failure tags.
- `Lang` holds the expression and value datatypes of the languages.
- `Env` holds the environment used for top-level definitions.

The L32 evaluator calls its own copy of the primitive table, which is not part of this
model. The L31 table in `Primitives` stands in for it.

All four source files are written as pure expressions and recursion. The model is
therefore made of datatypes, functions and lemmas, with no classes or loops.

Collaborators whose code is not part of this model become parameters:

- `Eval.Context` carries the alpha-renaming of closure bodies, the substitution of argument
  expressions, and the value printer `format`.
- `Primitives.Host` carries host arithmetic that the model does not interpret. This is
  floating-point division and `>`/`<` on operands that are not both numbers.

The evaluator takes a `fuel` argument that bounds nested closure applications.

## Model

| member | source | states |
|---|---|---|
| Env.ApplyEnvInnermost | src/L32/L32-eval.ts:29 | looking a variable up returns the value of the innermost frame binding it, and fails exactly when no frame binds it |
| Env.MakeEnvShadows | src/L32/L32-eval.ts:184-187 | a definition's new frame makes its name yield the new value and leaves every other name's lookup unchanged |
| Primitives.FoldSumIsSum | src/L31/evalPrimitive.ts:10 | the left fold of `+` from an accumulator equals the accumulator plus the sum of the numbers |
| Primitives.FoldProductIsProduct | src/L31/evalPrimitive.ts:13 | the left fold of `*` from an accumulator equals the accumulator times the product of the numbers |
| Primitives.PlusAndTimes | src/L31/evalPrimitive.ts:10-14 | `+` and `*` return the sum and product of their arguments when all are numbers, and fail with a type error otherwise; with no arguments they give 0 and 1 |
| Primitives.PlusSplits | src/L31/evalPrimitive.ts:10 | `+` over the concatenation of two number lists equals `+` applied to the two partial sums: `(+ a b c d)` is `(+ (+ a b) (+ c d))` |
| Primitives.MinusAndDivide | src/L31/evalPrimitive.ts:41-61 | `-` and `/` succeed exactly when the first two arguments are numbers and fail with a type error otherwise; the difference added to the subtrahend gives the minuend; an exact quotient times the divisor gives the dividend |
| Primitives.EqPrimIsAtomEquality | src/L31/evalPrimitive.ts:63-83 | `eq?` holds exactly when both arguments are equal symbols, both empty lists, or equal numbers, strings or booleans; pairs and every other value are never `eq?` |
| Primitives.CarCdrOfCons | src/L31/evalPrimitive.ts:26-28 | through the primitive table, `cons` builds the pair of its two arguments, `car` and `cdr` of it give them back, and `car` and `cdr` of anything that is not a pair are type errors |
| Primitives.MissingArguments | src/L31/evalPrimitive.ts:16-31 | an argument the call does not supply reads as `undefined`: `eq?` and `=` against it are false (unless the other argument is `undefined` too), `-` and `car` reject it with a type error, `not` of it is true, and `number?` and `pair?` of it are false |
| Primitives.ListPrimSpine | src/L31/evalPrimitive.ts:96-98 | `list` builds a proper list whose elements, in order, are its arguments |
| Primitives.DictPrim | src/L31/evalPrimitive.ts:108-109 | `dict` always returns a pair |
| Primitives.DictPrimIdempotent | src/L31/evalPrimitive.ts:108-109 | `dict` is the identity on pairs, wraps anything else as a one-element list, and applying it twice is the same as once |
| Primitives.GetInDict | src/L31/evalPrimitive.ts:118-123 | `get` is a type error unless the dictionary is a pair and the key a symbol |
| Primitives.FindInDict | src/L31/evalPrimitive.ts:131-140 | a failed lookup in the association list is always "key not found" |
| Primitives.FindInDictFirstMatch | src/L31/evalPrimitive.ts:131-140 | a lookup returns the value of the first entry whose key is the symbol, provided no empty-list element comes before it, and succeeds only in that case |
| Primitives.IsDictPrimSpec | src/L31/evalPrimitive.ts:147-168 | `dict?` holds exactly on non-empty proper lists whose every element is a pair with a symbol key |
| Primitives.GetFromAlist | src/L31/evalPrimitive.ts:36-37 | a non-empty association list passed through `dict` is a valid dictionary, and `get` on it agrees with the reference lookup over its entries |
| Primitives.AlistLookup | src/L31/evalPrimitive.ts:131-140 | searching a non-empty association list agrees with the reference lookup that returns the first entry with the key |
| Eval.SelfEvaluating | src/L32/L32-eval.ts:25-32 | numbers, booleans, strings, primitive operators and quoted literals evaluate to themselves, and a procedure expression evaluates to a closure over its unevaluated body |
| Eval.ValueToLitExpRoundTrip | src/L32/L32-eval.ts:151-159 | evaluating the literal expression made from a value gives back that value, for every value whose dictionary keys are symbols |
| Eval.NumberKeyBecomesSymbol | src/L32/L32-eval.ts:158 | a dictionary keyed by the number 1 comes back from the literal round trip keyed by the symbol of the printed number, which is why the round trip is stated for symbol-keyed values |
| Eval.LitEntriesRoundTrip | src/L32/L32-eval.ts:56-64 | the entries of a dictionary literal built from dictionary entries evaluate back to those entries |
| Eval.IfOnlyFalseIsFalse | src/L32/L32-eval.ts:94-100 | `if` takes the alternative exactly when the test is the boolean false, the consequent for every other value, and propagates a failing test |
| Eval.IfAndNotDisagreeOnZero | src/L32/L32-eval.ts:94-95 | `if` treats 0 and the empty string as true while the `not` primitive treats them as false |
| Eval.DeepEqualsIsEquality | src/L32/L32-eval.ts:141-145 | the deep equality used for dictionary keys coincides with structural equality of values and is symmetric |
| Eval.DeepEqualsRecursesWhereEqDoesNot | src/L32/L32-eval.ts:141-145 | deep equality identifies two equal pairs where `eq?` does not |
| Eval.FindEntryFirstKey | src/L32/L32-eval.ts:123 | the entry search returns the first entry whose key deep-equals the key, and returns nothing exactly when no entry has that key |
| Eval.DictApplication | src/L32/L32-eval.ts:121-125 | applying a dictionary value to anything but one argument is an arity error; with one argument it returns the value of the first entry with that key, or "key not found" |
| Eval.OnlyProceduresApply | src/L32/L32-eval.ts:105-109 | applying anything other than a primitive, closure or dictionary fails, and `let` is not supported |
| Eval.EvalBindingsSpec | src/L32/L32-eval.ts:82-92 | the bindings of a dictionary expression evaluate in order to entries keyed by the binding's name as a symbol, or to the failure of the first binding that fails |
| Eval.EvalDictSpec | src/L32/L32-eval.ts:82-92 | a dictionary expression evaluates to a dictionary value with one entry per binding, in order, or to the first binding's failure |
| Eval.EvalLitEntriesKeys | src/L32/L32-eval.ts:56-64 | a dictionary literal's entries keep their literal keys and get their evaluated values, in order |
| Eval.EvalSequenceSpec | src/L32/L32-eval.ts:169-187 | an empty sequence fails; otherwise the definitions before the last form extend the environment in order, the last form is evaluated there, a failing earlier form's error is returned, and a sequence ending in a definition fails |
| Eval.DefineThenReference | src/L32/L32-eval.ts:184-187 | defining a name and then referring to it yields the defined expression's value |
| Eval.DefineAndApply | src/L32/L32-eval.ts:190-191 | a program of one definition and one expression evaluates the expression in the empty environment extended with the definition |
| Eval.NestedDictionaryLookup | src/L32/L32-eval.ts:121-125 | `(define d (dict (a (dict (x 10)))))` followed by `((d 'a) 'x)` evaluates to 10 |
| Eval.ConditionalDictionary | src/L32/L32-eval.ts:33-35 | a dictionary chosen by `if` can be applied directly to a key |
| Eval.OneEntryDict | src/L32/L32-eval.ts:82-92 | a one-binding dictionary expression evaluates to a one-entry dictionary keyed by the binding's name |
| Eval.OneEntryLookup | src/L32/L32-eval.ts:121-125 | looking up the only key of a one-entry dictionary returns its value |
| Eval.OneOperand | src/L32/L32-eval.ts:34 | one operand evaluates to the one-element list of its value |
| Eval.TwoOperands | src/L32/L32-eval.ts:34 | two operands evaluate left to right to the list of their values, and the first failure wins |
| Lowering.Convert | src/q24.ts:72-80 | the corrected entry conversion used by the modelled pass: a number, boolean or string entry value becomes a value, not an expression node, a variable becomes the symbol of its name, a number the number, and any other expression stays a node; the source's own cast, which keeps booleans and strings as nodes, is `Lowering.ConvertAsWritten` |
| Lowering.AsWrittenDiffersOnlyAtBoolOrString | src/q24.ts:74-80 | the source's entry lowering and the corrected one produce the same association list exactly when no entry value is a boolean or string literal |
| Lowering.Dict2App | src/q24.ts:40-41 | the pass keeps the number of forms and their order: the i-th form keeps its kind and, for a definition, its name, and its expression is the rewrite of the i-th input expression |
| Lowering.L32ToL3Shape | src/q24.ts:25-33 | the result is the parsed prelude, or nothing when parsing failed, followed by the lowered program |
| Lowering.L32ToL3Lowers | src/q24.ts:32-33 | with a prelude free of dictionary expressions, no dictionary expression (`DictExp`) remains in any expression position the pass visits; quoted data is not visited and dictionary literals (`DictLitExp`) pass through unchanged (see the "Lowering.Convert" and "Lowering.Lowered" lines under "## Left out") |
| Lowering.RewriteIdentity | src/q24.ts:58-64 | on an expression with no dictionary expression (`DictExp`) at a visited position the rewrite is the identity; dictionary literals may be present and are kept |
| Lowering.RewriteLowers | src/q24.ts:58-64 | after the rewrite no dictionary expression (`DictExp`) remains in any expression position the rewrite visits; quoted data is not visited and dictionary literals (`DictLitExp`) are left as they are (see the "Lowering.Convert" and "Lowering.Lowered" lines under "## Left out") |
| Lowering.RewriteDictEntryIsAlist | src/q24.ts:72-80 | the rewritten entries are the proper association list of the entries' name/value pairs |
| Lowering.DictExpLowering | src/q24.ts:89-90 | a dictionary expression becomes `dict` applied to one quoted proper list whose i-th element pairs the i-th name, as a symbol, with the converted value, and that list satisfies `dict?` |
| Lowering.DictApplicationLowering | src/q24.ts:97-99 | an application with a dictionary operator becomes `get` applied to the lowered dictionary followed by the rewritten operands; any other application rewrites operator and operands in place |
| Lowering.DictLiteralPassesThrough | src/q24.ts:58-64 | a dictionary literal is left unchanged by the rewrite and counts as lowered, so `Lowered` says nothing about dictionary literals |
| Lowering.Dict2AppLowers | src/q24.ts:40-41 | no dictionary expression (`DictExp`) remains in any expression position of a lowered program that the pass visits; quoted data is not visited and dictionary literals (`DictLitExp`) pass through unchanged (see the "Lowering.Convert" and "Lowering.Lowered" lines under "## Left out") |
| Lowering.Dict2AppIdentity | src/q24.ts:40-41 | a program with no dictionary expression (`DictExp`) at a visited position is unchanged |
| Lowering.Dict2AppMerge | src/q24.ts:21-22 | lowering a merged program is merging the lowered programs |
| Lowering.ConvertAgreesWithEval | src/q24.ts:72-80 | a literal entry value converts to exactly the value the evaluator gives it |
| Lowering.EvalLiteralBindings | src/L32/L32-eval.ts:82-92 | literal-valued bindings evaluate to their direct entries in every environment |
| Lowering.DirectLookup | src/L32/L32-eval.ts:121-125 | looking a symbol up in those entries agrees with the association-list reference lookup; any other key is not found |
| Lowering.DirectApplication | src/L32/L32-eval.ts:33-35 | applying a literal-valued dictionary expression to a key evaluates the key and looks it up, or returns the key's failure |
| Lowering.LoweredApplication | src/L31/evalPrimitive.ts:36-37 | where `dict` and `get` name the primitives, the lowered call evaluates the key and runs `get` on the association list, or returns the key's failure |
| Lowering.LoweringPreservesLookup | src/q24.ts:97-99 | for a non-empty literal-valued dictionary applied to a key expression, the lowered program succeeds exactly when the original does, with the same result whenever the key is a symbol or fails |
| Lowering.BooleanEntryAsWritten | src/q24.ts:77 | the source's lowering of `((dict (a #t)) 'a)` makes `get` return the expression node for `#t`, while the evaluator and the corrected lowering return the boolean true |
| Lowering.VariableEntryLowering | src/q24.ts:75-78 | a variable entry value is lowered to its quoted name: with `x` bound to 5, `((dict (a x)) 'a)` evaluates to 5 and its lowering to the symbol `x` |
| ToJS.NatToStringRoundTrip | src/q3.ts:61 | a natural number prints as a non-empty digit string that reads back as the number |
| ToJS.IntToStringRoundTrip | src/q3.ts:61 | an integer prints as an optional minus sign and digits that read back as the integer |
| ToJS.TranslatableIff | src/q3.ts:54-64 | translation of an expression succeeds exactly when no quoted literal, `let` or dictionary form occurs where the printer looks, and otherwise fails with "Unknown CExp" |
| ToJS.TranslatableListIff | src/q3.ts:73 | operands translate exactly when each does, to one string per operand in order |
| ToJS.PrimOpToJSTable | src/q3.ts:98-105 | `=` and `eq?` print as `===`, `not` as `!`, `and` as `&&`, `or` as `\|\|`, and every other operator prints as itself |
| ToJS.DefineToJSShape | src/q3.ts:40-47 | a definition prints as `const name = value` exactly when its value translates |
| ToJS.FormTranslatable | src/q3.ts:15-20 | a top-level form translates exactly when its expression does |
| ToJS.ProgramToJSFormByForm | src/q3.ts:27-33 | a program translates exactly when every form does, to the forms' translations in order joined by `;` and a newline, and otherwise fails |
| ToJS.TranslationBalanced | src/q3.ts:54-134 | whatever the printer produces has balanced parentheses, when the program's names and strings contain none |
| ToJS.TranslationListBalanced | src/q3.ts:73 | every translated operand has balanced parentheses |
| ToJS.PrimAppBalanced | src/q3.ts:74-85 | a primitive application's text is balanced whenever its operands' texts are |
| ToJS.CallBalanced | src/q3.ts:89 | a call's text is balanced whenever its operator's and operands' texts are |
| ToJS.IfBalanced | src/q3.ts:118 | a conditional's text is balanced whenever its three parts' texts are |
| ToJS.ProcBalanced | src/q3.ts:128-134 | an arrow function's text is balanced whenever its body texts are and its parameter names contain no parentheses |
| ToJS.ProcBodyBalanced | src/q3.ts:132 | a single body expression, or a block of several joined by `;` and newlines, is balanced whenever each body text is |
| ToJS.ParamsBalanced | src/q3.ts:130-132 | a comma-separated parameter list of names without parentheses is balanced |
| ToJS.DefineProcExample | src/q3.ts:40-47 | `(define f (lambda (x y) (+ x y)))` prints as `const f = ((x,y) => (x + y))` |
| ToJS.LambdaExample | src/q3.ts:128-134 | `(lambda (x y) (+ x y))` prints as `((x,y) => (x + y))` |
| ToJS.BlockLambdaExample | src/q3.ts:128-134 | a procedure with several body expressions prints as a braced block of statements joined by `;` and a newline: `(lambda (x) (f x) (g x))` prints as `((x) => {\nf(x);\ng(x)\n})` |
| ToJS.SumExample | src/q3.ts:85 | `(+ x y)` prints as `(x + y)` |
| ToJS.IfOfTranslated | src/q3.ts:112-121 | for any three translatable parts, `(if t c a)` prints as `(T ? C : A)` over the parts' texts |
| ToJS.IfExample | src/q3.ts:112-121 | `(if (> x 0) x (- 0 x))` prints as `((x > 0) ? x : (0 - x))` |
| ToJS.GreaterExample | src/q3.ts:85 | `(> x 0)` prints as `(x > 0)` |
| ToJS.MinusExample | src/q3.ts:85 | `(- 0 x)` prints as `(0 - x)` |
| ToJS.AtomTexts | src/q3.ts:60-63 | for every string, boolean and name: a string prints between double quotes with no escaping, `#t` and `#f` print as `true` and `false`, and a variable reference prints its name |
| ToJS.UnescapedStringExample | src/q3.ts:62 | the string `say "hi"` prints as `"say "hi""`, which is not a well-formed JavaScript string literal |
| ToJS.UnaryPrimTexts | src/q3.ts:75-83 | for any translatable operand `a`, `(not a)`, `(number? a)` and `(boolean? a)` print as `(!A)`, `(typeof A === "number")` and `(typeof A === "boolean")` over its text `A` |
| ToJS.NotExample | src/q3.ts:75 | `(not #t)` prints as `(!true)` |
| ToJS.TypeTestExample | src/q3.ts:77-79 | `(number? 5)` prints as `(typeof 5 === "number")` |
| ToJS.CallExample | src/q3.ts:89 | `(f 1 2)` prints as `f(1,2)` |
| ToJS.CallOfVariable | src/q3.ts:89 | for any names `f` and `x`, `(f x)` prints as `f(x)` |
| ToJS.ProgramExample | src/q3.ts:27-33 | a definition followed by an expression prints as two statements joined by `;` and a newline |
| ToJS.UnknownExamples | src/q3.ts:64 | quoted literals and `let` fail with "Unknown CExp", and one such form fails the whole program |
| ToJS.OneOperand | src/q3.ts:73 | one translatable operand gives the one-element list of its text |
| ToJS.TwoOperands | src/q3.ts:73 | two translatable operands give the list of their two texts in order |

Balance is stated without quantifiers. `Depth` is the count of opening minus closing
parentheses. `Low` is the least depth reached by any prefix, which
`ToJS.LowIsLeastPrefixDepth` proves. `Balanced` means the depth is zero and `Low` is never
negative. The concatenation lemmas behind it are `ToJS.DepthAppend`,
`ToJS.ParenFreeBalanced`, `ToJS.BalancedConcat`, `ToJS.BalancedWrap`,
`ToJS.BalancedAround`, `ToJS.BalancedThen` and `ToJS.BalancedJoin`.

## Left out

- Parsing: `evalParse` and the reader/parser of concrete syntax are not part of this model. Programs are given as syntax trees.
- Reading and parsing the prelude file `q23.l3`: `Lowering.L32ToL3` takes the parse result as a parameter.
- Alpha-renaming (`renameExps`), substitution (`substitute`) and the value printer (`format`) are hooks in `Eval.Context`, not definitions. Hygiene of substitution is not proved.
- Floating-point division, whose quotient is inexact or whose divisor is zero, is the host hook `Primitives.Host.inexactQuotient`. `>` and `<` on operands that are not both numbers are the hooks `greater` and `less`. The hook may return any value, so the model does not promise that `(number? (/ 1 2))` is true, while the host always gives a number. Numbers are unbounded integers.
- Primitives.MissingArguments: the `car`, `eq?` and `pair?` results for a missing argument assume that the host's `isCompoundSExp` and `isSymbolSExp` return false on `undefined`. Those predicates are defined in `L31-value.ts`, which is not part of this model; a predicate reading a tag field of `undefined` would throw instead.
- Object identity (`===` on pairs, closures, dictionaries, symbols and the empty list, and the fallback of `deepEquals`) is modelled as structural equality. Two separately built but equal pairs are therefore `===` in the model and not in the host. The host also builds a new object for every symbol and every `'()`, so `(= 'a 'a)` and `deepEquals` on two empty lists are true in the model and false under the host's `===`; `eq?` and `deepEquals` compare symbols by name, as in the host.
- `toString` of integers at or above 1e21 switches to exponent notation in the host. The model always prints plain decimal digits.
- The evaluator is bounded by `fuel`. A non-terminating closure application reports `OutOfFuel` instead of running forever.
- Failure messages are reduced to tags (`Results.ErrorKind`). The message texts, including the printed dictionary contents, are not modelled.
- The printer's last "Unknown expression" branch is unreachable in the model, because `ToJS.Node` admits only programs and top-level forms.
- The trailing fallthrough of `L32applicativeEval`, which returns the expression itself, is unreachable, because the model's expression type is closed.
- The lowering's `(dict)` with no entries reads a missing first entry and crashes in the host. Every rewrite therefore requires non-empty dictionaries (`Lowering.DictsNonEmpty`).
- Lowering.LoweringPreservesLookup: proved only for dictionaries whose entry values are literals, for a key expression that contains no dictionary form (`Lowered(arg)`), with `dict` and `get` bound to the primitives. In the repository they are L3 procedures from the prelude, which is not part of this model. It is also proved only for keys that are symbols or fail: `get` rejects other keys with a type error, where the evaluator reports "key not found".
- Lowering.Convert: the modelled pass (`Dict2App`, `DictExpLowering`, `RewriteDictEntryIsAlist`, `L32ToL3Shape` and the lemmas about them) uses the corrected conversion, not the source's cast of boolean and string entries (`Lowering.ConvertAsWritten`, see "## Findings"). `Lowering.AsWrittenDiffersOnlyAtBoolOrString` shows the two agree on every dictionary without such entries. An entry value that is neither a variable nor a literal stays an expression node after lowering, so such a dictionary does not evaluate back to the same values. In particular a dictionary nested as an entry value stays an unlowered dictionary expression inside the quoted list: `Lowering.Lowered` does not look inside quoted data, so the "no dictionary form remains" lemmas speak only of the expression positions the pass visits.
- Lowering.VariableEntryLowering: a variable used as an entry value is lowered, as in the source, to the quoted symbol of its name, while the evaluator uses the variable's value. The lowering therefore preserves lookups only for literal-valued dictionaries. A corrected lowering would build the list at run time, and it is not modelled.
- Lowering.Lowered: a dictionary literal (`DictLitExp`) is passed through unchanged by the rewrite, as `rewriteCExp` does for every expression kind it does not list. `Lowered` therefore speaks only of dictionary expressions (`DictExp`), and a lowered program may still hold dictionary literals, which the printer then rejects.
- A dictionary reached through an operator expression such as an `if` is not turned into a `get` call by the lowering, because the source only recognises a literal dictionary expression in operator position. The model does the same.
- The dictionary entries are read as `key`/`value` by the lowering and as `var`/`val` by the evaluator. The AST file that defines them is not part of this model. Both read the same entry here, a name and an expression.
- `let` fails in the evaluator ("not supported") and the printer. The lowering rewrites inside it all the same.

## Findings

| source | as written | input that shows it | evidently intended | confidence | as-written member | corrected member |
|---|---|---|---|---|---|---|
| src/q24.ts:77,80 | an entry value that is not a variable or number is cast to an S-expression value and stored as the expression node itself | `((dict (a #t)) 'a)`: the lowered program's `get` returns the node for `#t`, not the boolean | literal booleans and strings become the values they denote, as the line-73 comment and the evaluator's own reading of such an entry suggest | medium, not executed | Lowering.BooleanEntryAsWritten | Lowering.LoweringPreservesLookup |
