# A verified model of the lisp.rb interpreter

lisp.rb is a small Scheme-like interpreter written in Ruby. Its parts form one pipeline:

- a lexer: two `gsub`s and an awk-style `split`;
- a recursive-descent parser that never fails;
- environments with parent links;
- a root environment holding the builtin procedures: arithmetic on decimal text, `eq?`, `lambda?`, `format`, `display`, `print`, `error` and `quit`;
- an evaluator with the special forms `lambda`, `define`, `if`, `quote`, `cond` and `begin`, plus procedure application through closures;
- the renderer `ast_to_string` / `Lambda#to_s`;
- the composition `REPL.run`, which is lex, then parse, then `evaluate_seq` in the root scope.

This project models that pipeline in Dafny and proves properties about it.

The model has these modules:

- `Syntax`: AST nodes and the `Array#tail` / `second` / `third` helpers.
- `Lexer`: `Lex`, written as the Ruby pipeline. An independent one-pass `Scan` is proved equal to it.
- `Parser`: `ParseFrom` is `_parse` and `Parse` is `parse`.
- `Values`: runtime values, faults and `Result`.
- `Environment`: scopes as an explicit store of frames.
  - Frame 0 is the root.
  - Every frame's parent index is smaller than its own.
  - A closure holds the index of the frame it captured, so a later `define` in that frame is seen through it.
- `Numerals`: `String#to_i`, `Integer#to_s` and Ruby's flooring `Integer#/`.
- `Builtins`: the root table and the builtin methods.
- `Render`: `ast_to_string`, `Lambda#to_s` and `format`.
- `Evaluator`: `evaluate`, `evaluate_seq`, `evaluate_if`, `cond_to_if`, `true?`, `Lambda#apply` and `REPL.run`. The mutable interpreter state (the frame store and the next closure id) is threaded through explicitly.
- `RoundTrip`: render, lex and parse fit together.
- `Laws`: the evaluator's behaviour, stated against independent descriptions. It ends with a worked example, the environment test from the program's own test suite.

Evaluation is bounded by fuel. Every `evaluate` call spends one unit, so fuel bounds the depth of the Ruby call stack. Running out gives `OutOfFuel`, which is distinct from every fault the program can raise:

- no such function;
- a user `error`;
- division by zero;
- wrong arity;
- an odd `Hash[]` argument count;
- NoMethodError;
- a TypeError while rendering;
- `quit`.

Behaviours of the code that a reader might not expect, which the model follows:

- `/` floors toward negative infinity. It does not truncate.
- A `cond` with no matching clause evaluates the `false` sentinel. The result is Ruby `false`, unless a scope binds `false`, and not the atom "#f".
- `if` takes its alternative for every predicate value other than "#t", not only for "#f".
- An unclosed `(` is closed at the end of the input.
- A top-level unmatched `)` ends the program.
- The comment on `Array#tail` says it keeps all but the last n + 1 elements. The code drops the first n + 1.

## Model

| member | source | states |
|---|---|---|
| Syntax.Tail | lisp.rb:3-6 | `tail(n)` is what is left after the first n + 1 elements: those elements followed by the result give back the array, and the result is empty exactly when the array has at most n + 1 elements |
| Lexer.Lex | lisp.rb:22-26 | every token is non-empty and holds no whitespace; a token holding a parenthesis is that parenthesis alone; the tokens concatenated spell the input with its whitespace removed |
| Lexer.LexIsScan | lisp.rb:25 | the `gsub`/`gsub`/`split(' ')` pipeline gives the same tokens as a one-pass scanner in which parentheses are standalone tokens and whitespace separates everything else |
| Lexer.Gsub | lisp.rb:25 | `gsub` with a one-character pattern brings in no character that is in neither the input nor the replacement, and leaves no occurrence of the pattern when the replacement does not contain it |
| Lexer.GsubTwiceIsPad | lisp.rb:25 | the two `gsub`s together surround each parenthesis with one space on each side and leave every other character alone |
| Lexer.ScanShape | lisp.rb:22-26 | the scanner's tokens are well shaped and concatenate to the pending word followed by the input without whitespace |
| Parser.ParseFrom | lisp.rb:36-48 | `_parse` only consumes tokens, keeps everything already in the list as a prefix of its result, and produces no parenthesis atom and no nil/false |
| Parser.Parse | lisp.rb:30-32 | every token sequence parses, without failing, to a top-level list that contains no parenthesis atom |
| Parser.RestIsSuffix | lisp.rb:36-48 | the tokens `_parse` hands back are always a suffix of those it was given |
| Parser.CloseAtEndIsImplicit | lisp.rb:36-44 | adding a `)` at the end of any token sequence does not change the tree: lists still open at the end are closed as if the parenthesis had been written |
| RoundTrip.RenderLexParse | lisp.rb:301-313 | rendering a printable node with `ast_to_string`, lexing and parsing gives the top-level list holding exactly that node |
| RoundTrip.ScanNode | lisp.rb:301-313 | the rendering of a printable node, followed by a token boundary, scans into the node's own tokens |
| RoundTrip.ParseNode | lisp.rb:36-48 | the tokens of a printable node, followed by anything, parse into that node appended to the list under construction |
| RoundTrip.UnmatchedCloseDropsRest | lisp.rb:41-42 | an unmatched top-level `)` ends the program: every token after it is dropped |
| RoundTrip.UnclosedOpenIsClosed | lisp.rb:38-44 | a `(` still open at the end of the input is closed there |
| RoundTrip.FormatQuotedReadsBack | lisp.rb:149-151 | what `format` writes for a quoted printable list succeeds and reads back, through the lexer and parser, as that list |
| RoundTrip.ClosureTextReadsBack | lisp.rb:174-176 | `Lambda#to_s` reads back as `(lambda (<params>) (<body>))`: the body comes back wrapped in one more list, and several parameters come back as one atom holding their names separated by commas |
| Environment.Define | lisp.rb:58-61 | `define` binds the key to the value in the receiving frame, keeps every other binding of that frame and its parent, and leaves every other frame as it was |
| Environment.Extend | lisp.rb:63-67 | `extend` adds a new frame whose parent is the receiver and whose bindings are the given ones, and leaves every existing frame unchanged |
| Environment.Lookup | lisp.rb:69-99 | `lookup` never answers nil or false unless the name itself is one: the short-circuit or in `lookup` skips them and the root falls back to the name |
| Environment.LookupFromChain | lisp.rb:69-99 | `lookup` answers either the name itself or the truthy binding of the name in some frame on the scope's parent chain |
| Environment.Ancestors | lisp.rb:69-71 | the chain `lookup` visits starts at the scope, follows parent links, strictly descends and ends at the root |
| Environment.LookupIsNearest | lisp.rb:69-71 | `lookup` answers with the binding of the first frame on the parent chain that binds the name to something other than nil/false |
| Environment.LookupAt | lisp.rb:69-71 | the k-th frame on the chain answers when it is the first to bind the name to something truthy |
| Environment.LookupFallsBackToName | lisp.rb:97-99 | when no frame on the chain binds the name to something truthy, the root answers with the name itself |
| Environment.DefineIsVisible | lisp.rb:58-71 | a truthy `define` in a frame is seen from every scope whose chain reaches that frame before any other frame binding the name, including closures created earlier |
| Environment.DefineIsLocal | lisp.rb:58-61 | a `define` changes no lookup from scopes whose chain does not pass through the defining frame |
| Environment.ExtendLookup | lisp.rb:63-71 | the new child answers from its own truthy bindings first and otherwise exactly as its parent; lookups from older frames are unchanged |
| Environment.LookupOlder | lisp.rb:63-67 | adding frames never changes a lookup from an existing frame |
| Builtins.ToInt | lisp.rb:112 | `to_i` succeeds exactly on strings and nil; on anything else it is a NoMethodError |
| Builtins.Ints | lisp.rb:110-127 | the arguments read as integers: reading i is `to_i` of argument i, and this succeeds exactly when every argument is a string or nil |
| Builtins.AddFrom | lisp.rb:110-114 | the fold `acc + x.to_i` equals the starting value plus the sum of the integer readings, or fails with NoMethodError |
| Builtins.SubFrom | lisp.rb:118-120 | the fold `acc - x.to_i` equals the starting value minus the sum of the integer readings, or fails with NoMethodError |
| Builtins.MulFrom | lisp.rb:123-127 | the fold `acc * x.to_i` equals the starting value times the product of the integer readings, or fails with NoMethodError |
| Builtins.AddOp | lisp.rb:110-114 | `add` is the decimal text of the sum, starting from 0 |
| Builtins.MultiplyOp | lisp.rb:123-127 | `multiply` is the decimal text of the product, starting from 1 |
| Builtins.SubtractOp | lisp.rb:116-121 | `subtract` with no arguments is "0"; otherwise it is the first reading minus the sum of the rest, so one argument comes back un-negated |
| Builtins.DivideOp | lisp.rb:129-131 | `divide` needs exactly two arguments, raises ZeroDivisionError on a zero denominator, and otherwise gives the decimal text of the floor quotient |
| Builtins.EqOp | lisp.rb:105-108 | `eq?` with other than two arguments is an arity error; with two it gives "#t" exactly when they are equal and "#f" exactly when they differ |
| Builtins.IsLambdaOp | lisp.rb:153-155 | `lambda?` with other than one argument is an arity error; with one it gives "#t" exactly when it is a closure and "#f" exactly when it is not |
| Builtins.CallBuiltin | lisp.rb:101-155 | `env.send` on a builtin dispatches to the method of that name: `+`, `*`, `-`, `/`, `eq?` and `lambda?` give exactly what `AddOp`, `MultiplyOp`, `SubtractOp`, `DivideOp`, `EqOp` and `IsLambdaOp` give; its results are strings; `format` from a non-root scope reaches Kernel#format; `quit` exits when called with no arguments and is an arity error otherwise; `error` always raises, `error` with the formatted message; `display`, `print` and root `format` succeed exactly when formatting does and return the formatted string |
| Numerals.StrToI | lisp.rb:112 | `to_i` is never positive after a leading `-` and never negative otherwise, and text that starts with neither a sign nor a digit reads as 0; `DecimalRoundTrip` shows it inverts `Integer#to_s` |
| Numerals.DecimalRoundTrip | lisp.rb:112-113 | reading back with `to_i` what `Integer#to_s` wrote gives the same integer |
| Numerals.IntToDecimal | lisp.rb:113 | `to_s` starts with a minus sign exactly for negative numbers, followed by the decimal digits of the magnitude |
| Numerals.FloorDiv | lisp.rb:130 | Ruby's `Integer#/`: the remainder lies between 0 and the divisor and takes the divisor's sign |
| Numerals.FloorDivUnique | lisp.rb:130 | the floor quotient is the only integer with that remainder property |
| Render.RenderNode | lisp.rb:301-313 | `ast_to_string` succeeds on every printable node, writes a list in parentheses, and raises TypeError on nil/false |
| Render.RenderItems | lisp.rb:305 | the items' renderings joined by spaces succeed when every item is printable; no items give the empty string |
| Render.ClosureText | lisp.rb:174-176 | `Lambda#to_s` raises NoMethodError when the parameters are not a list, and otherwise starts with `(lambda (` whenever the body is printable |
| Render.RenderValue | lisp.rb:301-313 | a string renders as itself; a quoted list renders as `ast_to_string` of that list, a closure as `Lambda#to_s`; a builtin symbol, nil or false raises TypeError |
| Render.FormatAll | lisp.rb:149-151 | `format` succeeds exactly when every argument renders; on strings it is their concatenation, and any builtin symbol, nil or false among the arguments makes it raise |
| Render.FormatSingle | lisp.rb:149-151 | `format` of one argument is that argument's `ast_to_string` |
| Render.FormatAppend | lisp.rb:149-151 | `format` of two argument lists joined is the concatenation of formatting each, and the first failure wins |
| Evaluator.InitialState | lisp.rb:78-95 | the interpreter starts with the root frame alone, and that state is well formed |
| Evaluator.TrueQ | lisp.rb:295-298 | `true?` answers false exactly for "#f", true exactly for "#t", and nil for every other value, including nil, Ruby false, closures and quoted lists |
| Evaluator.CondToIf | lisp.rb:264-293 | no clauses give the `false` sentinel; when a clause is not a list and desugaring still succeeds, some clause is an `else` clause |
| Evaluator.BindArgs | lisp.rb:167-168 | `Hash[*zip.flatten]`: parameters that are not a list are a NoMethodError, and every closure bound was one of the arguments |
| Evaluator.ZipFlattenClosures | lisp.rb:168 | the only closures among the flattened parameter/argument items are arguments |
| Evaluator.HashPairsValues | lisp.rb:168 | every value of the hash is one of the flattened items |
| Evaluator.Eval | lisp.rb:179-231 | a finished evaluation never removes a frame or changes a frame's parent (it may add frames and, through `define`, change bindings of existing frames), never lowers the id counter, keeps the state well formed, and returns a value whose captured frame exists |
| Evaluator.EvalIf | lisp.rb:237-258 | a finished `evaluate_if` only advances the state and gives a value whose captured frame exists; which branch it takes is stated by `Laws.IfFollowsOnlyTrue` |
| Evaluator.EvalArgs | lisp.rb:219 | `exprs.map` gives one value per argument expression, and a finished evaluation only advances the state; the left-to-right order is stated by `Laws.EvalArgsSnoc` |
| Evaluator.EvalSeq | lisp.rb:233-235 | `evaluate_seq` of no forms is nil in the same state; otherwise the state advances as for `evaluate` |
| Evaluator.Apply | lisp.rb:221-228 | applying anything other than a builtin or a closure raises "No such function" with that value; a finished call never removes a frame or relinks one; what a builtin call and a closure call compute is stated by `Laws.ApplyBuiltin` and `Laws.ApplyClosure` |
| Evaluator.Run | lisp.rb:328-330 | `REPL.run` only advances the state |
| Laws.QuoteIsUnevaluated | lisp.rb:207-208 | `(quote x...)` is the list of the forms after `quote`, unevaluated and in the same state, whatever any name is bound to |
| Laws.IfFollowsOnlyTrue | lisp.rb:237-258 | `if` evaluates the predicate, then only the consequent when the predicate's value is exactly "#t"; for "#f" and for every other value it evaluates only the alternative; a raising predicate makes the `if` raise |
| Laws.CondDesugar | lisp.rb:289-291 | a clause whose first item is not `else` becomes `(if predicate (begin actions...) <the rest desugared>)` |
| Laws.CondElseHidesRest | lisp.rb:287-288 | an `else` clause becomes `(begin actions...)` and the clauses after it are dropped |
| Laws.CondToIfFails | lisp.rb:264-293 | desugaring fails, always with NoMethodError, exactly when a clause that is not a list is reached before any `else` clause |
| Laws.CondTakesTrueClause | lisp.rb:209-210 | when the first clause's predicate gives "#t", the `cond` runs that clause's actions in sequence, in the state the predicate left |
| Laws.CondSkipsOtherClause | lisp.rb:209-210 | any other predicate value makes the `cond` evaluate the remaining clauses, in the state the predicate left |
| Laws.CondPropagatesFault | lisp.rb:209-210 | a predicate that raises makes the `cond` raise the same fault |
| Laws.CondIsItsDesugaring | lisp.rb:209-210 | `(cond clauses...)` evaluates the form the clauses desugar to |
| Laws.EmptyCondIsFalse | lisp.rb:281-282 | a `cond` with no clauses gives Ruby `false` (not "#f") when no frame binds `false` truthily |
| Laws.BindArgsZip | lisp.rb:167-168 | for distinct atom parameters and non-list arguments, parameter i is bound to argument i, a missing argument to nil, extra arguments are ignored, and nothing else is bound |
| Laws.PlainBindings | lisp.rb:168 | under the same conditions, the flattened list has two items per parameter and its hash binds positionally |
| Laws.ClosureIgnoresCaller | lisp.rb:224-225 | a closure call gives the same result from any calling scope |
| Laws.CallScope | lisp.rb:167-171 | inside a call, a parameter bound to something truthy is read from the call's frame, and every other name is read as in the captured scope |
| Laws.ApplyClosure | lisp.rb:167-171 | calling a closure whose parameters bind runs its body as a sequence in a new frame, a child of the captured frame holding exactly the `Hash[*zip.flatten]` bindings, with the id counter unchanged |
| Laws.ApplyClosureBindFails | lisp.rb:168 | a closure whose parameters cannot be bound raises that binding fault and runs nothing |
| Laws.ApplyBuiltin | lisp.rb:221-223 | calling a builtin leaves the state untouched: a returned value is the result and a raised exception is the fault |
| Laws.LambdaMakesClosure | lisp.rb:184-188 | `(lambda params body...)` evaluates nothing and gives a fresh closure over the current scope with those parameters and body; only the id counter moves |
| Laws.CallOrder | lisp.rb:213-228 | a list headed by anything but a keyword is a call: the head is evaluated first and its fault stops the call, the arguments are evaluated next from the state it left, and the procedure is applied in the state they left |
| Laws.EvalArgsSnoc | lisp.rb:219 | arguments are evaluated left to right: one more at the end is evaluated in the state the earlier ones left, its value comes last, and an earlier fault stops it from being evaluated |
| Laws.DefineIsSeen | lisp.rb:189-204 | `(define name expr)` evaluates `expr` once, binds its value to `name` in the current frame and returns it, and raises whatever `expr` raises; a truthy value so bound is then what `name` evaluates to in the same scope |
| Laws.DefinedProcedureSeesItself | lisp.rb:193-204 | `(define (f params...) body...)` evaluates nothing: it binds `f` in the current frame to a fresh closure with exactly those parameters and body over the defining scope, returns it, and only moves the id counter besides; inside any call frame of it `f` names that closure unless a parameter shadows it |
| Laws.EvalSeqSnoc | lisp.rb:233-235 | one more form at the end is evaluated in the state the earlier forms left, and its value is the result |
| Laws.RunRendered | lisp.rb:328-330 | running the text `ast_to_string` writes for a printable tree is evaluating that tree in the root scope |
| Laws.AddOnNumerals | lisp.rb:110-114 | on two numerals `+` is integer addition, written back as a numeral |
| Laws.SubtractOnNumerals | lisp.rb:116-121 | on two numerals `-` is integer subtraction, written back as a numeral |
| Laws.MultiplyOnNumerals | lisp.rb:123-127 | on two numerals `*` is integer multiplication, written back as a numeral |
| Laws.DivisionOnNumerals | lisp.rb:129-131 | on two numerals `/` raises for a zero divisor and otherwise reads back as the floor quotient |
| Laws.EqOnNumerals | lisp.rb:105-108 | on two numerals `eq?` gives "#t" exactly when the numbers are equal |
| Laws.AddMultiplyCommute | lisp.rb:110-127 | `+` and `*` give the same result with their two arguments swapped |
| Laws.EvalFuel | lisp.rb:179-231 | an evaluation that finishes, with a value or a fault, finishes the same way with any larger fuel |
| Laws.SeqFuel | lisp.rb:233-235 | the same for `evaluate_seq` |
| Laws.ApplyFuel | lisp.rb:167-172 | the same for applying a procedure |
| Laws.DefineSteps | lisp.rb:375-378 | the three definitions of the environment test bind `b`, `a` and `c` in the scope they run in |
| Laws.CallC | lisp.rb:377-379 | `(c 2)` binds `b` to "2" in a new child of the defining scope and returns the closure `(lambda () (a))` over that child |
| Laws.CallA | lisp.rb:376-379 | `(a)`, called from inside that closure, runs `a`'s body in a fresh child of the scope `a` was defined in and gives "1" |
| Laws.InheritLocalOverGlobal | lisp.rb:374-379 | the environment test's forms give "1": `a` reads the `b` of the scope it was defined in, not the `b` of the call of `c` |

Members without a row are helpers of the rows above:

- `Lexer.SplitFrom` and `Lexer.Split` model `split(' ')`; their behaviour is stated through `Lexer.Lex` and `Lexer.LexIsScan`.
- `Render.JoinParams` models `Array#join(',')`; it is stated through `RoundTrip.ClosureTextReadsBack`.
- `Evaluator.ZipFlatten` and `Evaluator.HashPairs` model `Hash[*zip.flatten]`; they are stated through `Evaluator.BindArgs`, `Laws.PlainBindings` and `Laws.BindArgsZip`.
- `Evaluator.EvalForm`, `Evaluator.EvalDefine` and `Evaluator.EvalCall` are the branches of `evaluate`; they are stated through `Evaluator.Eval` and the `Laws` rows for each special form and for application.
- `Builtins.RootTable` is the table `RootEnvironment` starts from. `Evaluator.InitialState` and `Laws.InheritLocalOverGlobal` use it.

## Left out

- The REPL loop, the prompt, `gets`, and ARGV/`File` handling (lisp.rb:315-326, 422-434) are input and output, and are not modelled. `Evaluator.Run` is the `REPL.run` composition.
- `display` and `print` return the formatted string, as the source does. The `puts`/`print` output they write is not modelled.
- `quit` ends the process in Ruby. Here it raises the `Exit` fault.
- `format` called directly from a scope other than the root reaches Ruby's private `Kernel#format` (sprintf) before `method_missing`. That is foreign library behaviour. The model stops there with the `KernelFormat` fault. Every other builtin reaches the root method through `method_missing` (lisp.rb:73-75), which the model takes for granted.
- Numerals.StrToI: reads only an optional sign and leading decimal digits. Ruby's `String#to_i` also skips leading whitespace, accepts underscores between digits and accepts a `0d`/`0D` prefix; none of that is modelled.
- Evaluator.Eval: fuel bounds the nesting depth of `evaluate`. Ruby's recursion is bounded only by the stack, and a SystemStackError is modelled as `OutOfFuel`. `_parse` and `ast_to_string` also recurse once per nesting level, so very deeply nested input raises SystemStackError there too; the model's `Parse` and `RenderNode` are total and do not model that limit.
- Laws.BindArgsZip: states positional binding only for distinct atom parameters and arguments that are not quoted lists. `Evaluator.BindArgs` itself models the general case: `flatten` splices list arguments into the key/value pairs, and an odd count raises ArgumentError.
- Laws.InheritLocalOverGlobal: runs the environment test's forms at top level. In the test program they sit inside `inherit-local-over-global-test`. The scoping it shows is the same. The rest of the LIBRARY and TESTS program texts (lisp.rb:333-419) are not verified.
- `Array#to_hash` (lisp.rb:8-10) is never called by the interpreter and is not modelled.
- Object identity of closures is modelled by a fresh id per `Lambda.new`. In every run from `InitialState`, closures made by different creations are never equal, and that is the only way their identity is observed. `ValidState` does not itself require stored closure ids to lie below the counter, so the laws also cover states in which a fresh closure could equal an older one.
- Text is modelled as Dafny strings, which are sequences of Unicode scalar values. Input that is not valid UTF-8, on which Ruby's `split` in the lexer raises ArgumentError, cannot be expressed and is not modelled.
