/**
 The abstract syntax shared by the lexer, the parser, the renderer and the
 evaluator of the Scheme-like interpreter in lisp.rb, together with the small
 Array helpers (`tail`, `second`, `third`) the interpreter is written with.
 */
module Syntax {

  /** An AST node. The parser produces only `Atom` and `List`; the other two
      stand for the Ruby values the evaluator can find in an expression
      position: `nil` where a form is too short (`expression.third` of a
      two-element list) and the `false` that `cond` desugaring leaves in the
      alternative position of its last `if`. */
  datatype Node =
    | Atom(name: string)
    | List(items: seq<Node>)
    | NilNode
    | FalseNode

  /** Ruby's `Array#tail(n)` from lisp.rb: it drops the first n + 1 elements
      (the comment above it in the source says it keeps all but the last
      n + 1, which is not what the code does). */
  function Tail<T>(s: seq<T>, n: nat): (r: seq<T>)
    ensures n < |s| ==> s[..n + 1] + r == s
    ensures |s| <= n + 1 <==> r == []
  {
    if n + 1 > |s| then [] else s[n + 1..]
  }

  /** `self[i]` on a Ruby array: the element, or nil past the end. */
  function At(items: seq<Node>, i: nat): (r: Node)
    ensures i < |items| ==> r == items[i]
    ensures |items| <= i ==> r == NilNode
  {
    if i < |items| then items[i] else NilNode
  }

  /** The characters Ruby's awk-style `split(' ')` separates on. */
  predicate IsSpace(c: char) {
    c == ' ' || ('\t' <= c <= '\r')
  }

  predicate IsParen(c: char) {
    c == '(' || c == ')'
  }

  /** A node the parser can produce: atoms are never the parenthesis tokens,
      and there is no nil or false in it. */
  predicate Syntactic(n: Node) {
    match n
    case Atom(s) => s != "(" && s != ")"
    case List(items) => forall i :: 0 <= i < |items| ==> Syntactic(items[i])
    case NilNode => false
    case FalseNode => false
  }

  /** A node whose rendering lexes back into its own tokens: atoms are
      non-empty and hold no whitespace and no parenthesis. */
  predicate Printable(n: Node) {
    match n
    case Atom(s) => s != [] && forall i :: 0 <= i < |s| ==> !IsSpace(s[i]) && !IsParen(s[i])
    case List(items) => forall i :: 0 <= i < |items| ==> Printable(items[i])
    case NilNode => false
    case FalseNode => false
  }

  lemma {:induction false} PrintableIsSyntactic(n: Node)
    requires Printable(n)
    ensures Syntactic(n)
  {
    match n
    case Atom(s) =>
      if s == "(" || s == ")" {
        assert IsParen(s[0]);
      }
    case List(items) =>
      forall i | 0 <= i < |items|
        ensures Syntactic(items[i])
      {
        PrintableIsSyntactic(items[i]);
      }
  }
}
