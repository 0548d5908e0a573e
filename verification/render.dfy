/**
 The value renderer of lisp.rb: `ast_to_string` and `Lambda#to_s`, and the
 concatenation `format` performs over its arguments.
 */
module Render {
  import opened Syntax
  import opened Values

  /** `ast_to_string` on an AST node: a list is its items' renderings joined
      by single spaces inside parentheses, an atom is its own text. `nil` and
      `false` reach `string << ast` and raise a TypeError. */
  function RenderNode(n: Node): (r: Result<string>)
    ensures Printable(n) ==> r.Ok?
    ensures r.Ok? && n.List? ==> |r.value| >= 2 && r.value[0] == '(' && r.value[|r.value| - 1] == ')'
    ensures n.NilNode? || n.FalseNode? ==> r == Err(NotAString)
    decreases n, 1
  {
    match n
    case Atom(s) => Ok(s)
    case List(items) =>
      (match RenderItems(items)
       case Ok(inner) => Ok("(" + inner + ")")
       case Err(f) => Err(f))
    case NilNode => Err(NotAString)
    case FalseNode => Err(NotAString)
  }

  /** The renderings of `items`, separated by single spaces. */
  function RenderItems(items: seq<Node>): (r: Result<string>)
    ensures (forall i :: 0 <= i < |items| ==> Printable(items[i])) ==> r.Ok?
    ensures items == [] ==> r == Ok("")
    decreases items, 0
  {
    if items == [] then Ok("")
    else
      match RenderNode(items[0])
      case Err(f) => Err(f)
      case Ok(first) =>
        if |items| == 1 then Ok(first)
        else
          match RenderItems(items[1..])
          case Err(f) => Err(f)
          case Ok(rest) => Ok(first + " " + rest)
  }

  /** Ruby's `Array#join(',')`, which joins nested arrays recursively with the
      same separator; `nil` joins as the empty string, `false` as "false". */
  function JoinParams(items: seq<Node>): string
    decreases items
  {
    if items == [] then ""
    else
      var first := match items[0]
        case Atom(s) => s
        case List(inner) => JoinParams(inner)
        case NilNode => ""
        case FalseNode => "false";
      if |items| == 1 then first else first + "," + JoinParams(items[1..])
  }

  /** `Lambda#to_s`: `(lambda (<params joined by commas>) <body rendered as a list>)`.
      A parameter position that is not a list has no `join` (NoMethodError). */
  function ClosureText(params: Node, body: seq<Node>): (r: Result<string>)
    ensures !params.List? ==> r == Err(NoMethod)
    ensures params.List? && (forall i :: 0 <= i < |body| ==> Printable(body[i])) ==>
              r.Ok? && "(lambda (" <= r.value
  {
    match params
    case List(ps) =>
      (match RenderNode(List(body))
       case Ok(b) => Ok("(lambda (" + JoinParams(ps) + ") " + b + ")")
       case Err(f) => Err(f))
    case _ => Err(NoMethod)
  }

  /** `ast_to_string` on a runtime value. */
  function RenderValue(v: Value): (r: Result<string>)
    ensures v.Text? ==> r == Ok(v.text)
    ensures v.Prim? || v.Nil? || v.False? ==> r == Err(NotAString)
    ensures v.Quoted? ==> r == RenderNode(List(v.items))
    ensures v.Closure? ==> r == ClosureText(v.params, v.body)
  {
    match v
    case Text(s) => Ok(s)
    case Quoted(items) => RenderNode(List(items))
    case Closure(_, params, body, _) => ClosureText(params, body)
    case Prim(_) => Err(NotAString)
    case Nil => Err(NotAString)
    case False => Err(NotAString)
  }

  /** `RootEnvironment#format`: the renderings concatenated with no separator;
      the first argument that cannot be rendered raises. */
  function FormatAll(args: seq<Value>): (r: Result<string>)
    ensures (forall i :: 0 <= i < |args| ==> args[i].Text?) ==> r == Ok(TextConcat(args))
    ensures (exists i :: 0 <= i < |args| && (args[i].Prim? || args[i].Nil? || args[i].False?)) ==> r.Err?
    ensures r.Ok? <==> forall i :: 0 <= i < |args| ==> RenderValue(args[i]).Ok?
  {
    if args == [] then Ok("")
    else
      match RenderValue(args[0])
      case Err(f) => Err(f)
      case Ok(first) =>
        match FormatAll(args[1..])
        case Err(f) => Err(f)
        case Ok(rest) => Ok(first + rest)
  }

  /** `format` of one argument is that argument's rendering. */
  lemma FormatSingle(v: Value)
    ensures FormatAll([v]) == RenderValue(v)
  {
    assert [v][1..] == [];
    assert FormatAll([]) == Ok("");
    if RenderValue(v).Ok? {
      assert RenderValue(v).value + "" == RenderValue(v).value;
    }
  }

  /** `format` works argument by argument: formatting `a + b` is formatting
      `a` and then `b` and concatenating, and the first failure wins. */
  lemma {:induction false} FormatAppend(a: seq<Value>, b: seq<Value>)
    ensures FormatAll(a + b) ==
              match FormatAll(a)
              case Err(f) => Err(f)
              case Ok(x) =>
                match FormatAll(b)
                case Err(f) => Err(f)
                case Ok(y) => Ok(x + y)
    decreases |a|
  {
    if a == [] {
      assert a + b == b;
      assert FormatAll(a) == Ok("");
      if FormatAll(b).Ok? {
        assert "" + FormatAll(b).value == FormatAll(b).value;
      }
    } else {
      assert (a + b)[0] == a[0];
      assert (a + b)[1..] == a[1..] + b;
      FormatAppend(a[1..], b);
      if RenderValue(a[0]).Ok? && FormatAll(a[1..]).Ok? && FormatAll(b).Ok? {
        var x := RenderValue(a[0]).value;
        assert x + (FormatAll(a[1..]).value + FormatAll(b).value)
            == (x + FormatAll(a[1..]).value) + FormatAll(b).value;
      }
    }
  }

  /** The concatenated texts of atom values. */
  function TextConcat(args: seq<Value>): string
    requires forall i :: 0 <= i < |args| ==> args[i].Text?
  {
    if args == [] then "" else args[0].text + TextConcat(args[1..])
  }
}
