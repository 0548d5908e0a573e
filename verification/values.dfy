/**
 Runtime values of the interpreter in lisp.rb and the ways evaluation can fail.
 */
module Values {
  import opened Syntax

  /** The Ruby method names the root environment binds the builtin
      procedure names to (`:add`, `:multiply`, ...). */
  datatype Builtin =
    | Add | Multiply | Divide | Subtract | Quit
    | Display | Print | Format | Eq | Error | IsLambda

  /** What `evaluate` returns: a Ruby String, an Array of AST nodes (the only
      way a list value arises is `quote`), a `Lambda`, a builtin Symbol, `nil`
      or `false`.

      Every `Lambda.new` in the evaluator takes a fresh `id`, so two closure
      values are equal exactly when they come from the same creation — the
      identity comparison Ruby's `==` and Hash keys use for `Lambda` objects.
      `env` is the index of the captured environment in the frame store. */
  datatype Value =
    | Text(text: string)
    | Quoted(items: seq<Node>)
    | Closure(id: nat, params: Node, body: seq<Node>, env: nat)
    | Prim(op: Builtin)
    | Nil
    | False

  /** The exceptions evaluation can raise. `Exit` is the SystemExit raised
      by `quit`; `KernelFormat` marks a call of `format` from a non-root
      scope, where Ruby's own `Kernel#format` answers (outside this model). */
  datatype Fault =
    | NoSuchFunction(callee: Value)
    | UserError(message: string)
    | ZeroDivision
    | WrongArity(op: Builtin, given: nat)
    | OddHashArguments
    | NoMethod
    | NotAString
    | Exit
    | KernelFormat

  datatype Result<+T> = Ok(value: T) | Err(fault: Fault)

  /** The value a node denotes as data: what a name position is keyed by,
      and what `env.lookup` is asked for when an expression is not a list. */
  function OfNode(n: Node): (v: Value)
    ensures !v.Closure? && !v.Prim?
    ensures n.Atom? <==> v.Text?
    ensures n.List? <==> v.Quoted?
  {
    match n
    case Atom(s) => Text(s)
    case List(items) => Quoted(items)
    case NilNode => Nil
    case FalseNode => False
  }

  /** Ruby truthiness, as used by `||` in `lookup`. */
  predicate Truthy(v: Value) {
    !v.Nil? && !v.False?
  }

  /** A value whose captured environment (if any) exists in a store of
      `n` frames. */
  predicate WfValue(v: Value, n: nat) {
    v.Closure? ==> v.env < n
  }

  predicate WfValues(vs: seq<Value>, n: nat) {
    forall i :: 0 <= i < |vs| ==> WfValue(vs[i], n)
  }
}
