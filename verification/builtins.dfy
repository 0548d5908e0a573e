/**
 The builtin procedures of lisp.rb's RootEnvironment: the name table the root
 scope starts with and the methods the names are bound to.
 */
module Builtins {
  import opened Syntax
  import opened Values
  import opened Numerals
  import opened Render

  /** The bindings `RootEnvironment#initialize` starts from. */
  const RootTable: map<Value, Value> := map[
    Text("+") := Prim(Add),
    Text("*") := Prim(Multiply),
    Text("/") := Prim(Divide),
    Text("-") := Prim(Subtract),
    Text("quit") := Prim(Quit),
    Text("display") := Prim(Display),
    Text("print") := Prim(Print),
    Text("format") := Prim(Format),
    Text("eq?") := Prim(Eq),
    Text("error") := Prim(Error),
    Text("lambda?") := Prim(IsLambda)
  ]

  /** `x.to_i` on an argument: strings read their leading numeral, `nil`
      reads as 0, and nothing else has a `to_i`. */
  function ToInt(v: Value): (r: Result<int>)
    ensures r.Err? ==> r.fault == NoMethod
    ensures r.Ok? <==> v.Text? || v.Nil?
  {
    match v
    case Text(s) => Ok(StrToI(s))
    case Nil => Ok(0)
    case _ => Err(NoMethod)
  }

  /** Every argument read as an integer, or the first that cannot be. */
  function Ints(args: seq<Value>): (r: Result<seq<int>>)
    ensures r.Ok? ==> |r.value| == |args|
    ensures r.Ok? ==> forall i :: 0 <= i < |args| ==> ToInt(args[i]) == Ok(r.value[i])
    ensures r.Ok? <==> forall i :: 0 <= i < |args| ==> args[i].Text? || args[i].Nil?
    ensures r.Err? ==> r.fault == NoMethod
  {
    if args == [] then Ok([])
    else
      match ToInt(args[0])
      case Err(f) => Err(f)
      case Ok(n) =>
        match Ints(args[1..])
        case Err(f) => Err(f)
        case Ok(ns) => Ok([n] + ns)
  }

  function Sum(xs: seq<int>): int {
    if xs == [] then 0 else xs[0] + Sum(xs[1..])
  }

  function Product(xs: seq<int>): int {
    if xs == [] then 1 else xs[0] * Product(xs[1..])
  }

  /** `args.inject(acc) { |acc, x| acc + x.to_i }`. */
  function AddFrom(acc: int, args: seq<Value>): (r: Result<int>)
    ensures Ints(args).Ok? ==> r == Ok(acc + Sum(Ints(args).value))
    ensures Ints(args).Err? ==> r == Err(NoMethod)
    decreases |args|
  {
    if args == [] then Ok(acc)
    else
      match ToInt(args[0])
      case Err(f) => Err(f)
      case Ok(n) => AddFrom(acc + n, args[1..])
  }

  /** `args.inject(acc) { |acc, x| acc - x.to_i }`. */
  function SubFrom(acc: int, args: seq<Value>): (r: Result<int>)
    ensures Ints(args).Ok? ==> r == Ok(acc - Sum(Ints(args).value))
    ensures Ints(args).Err? ==> r == Err(NoMethod)
    decreases |args|
  {
    if args == [] then Ok(acc)
    else
      match ToInt(args[0])
      case Err(f) => Err(f)
      case Ok(n) => SubFrom(acc - n, args[1..])
  }

  /** `args.inject(acc) { |acc, x| acc * x.to_i }`. */
  function MulFrom(acc: int, args: seq<Value>): (r: Result<int>)
    ensures Ints(args).Ok? ==> r == Ok(acc * Product(Ints(args).value))
    ensures Ints(args).Err? ==> r == Err(NoMethod)
    decreases |args|
  {
    if args == [] then Ok(acc)
    else
      match ToInt(args[0])
      case Err(f) => Err(f)
      case Ok(n) =>
        var r := MulFrom(acc * n, args[1..]);
        if Ints(args[1..]).Ok? then
          var ns := Ints(args[1..]).value;
          assert Ints(args).value == [n] + ns;
          assert Product([n] + ns) == n * Product(ns) by {
            assert ([n] + ns)[1..] == ns;
          }
          MulAssoc(acc, n, Product(ns));
          r
        else r
  }

  lemma MulAssoc(a: int, b: int, c: int)
    ensures a * b * c == a * (b * c)
  {
  }

  /** An integer result, written back as decimal text. */
  function Numeral(r: Result<int>): (v: Result<Value>)
    ensures r.Ok? ==> v == Ok(Text(IntToDecimal(r.value)))
    ensures r.Err? ==> v == Err(r.fault)
  {
    match r
    case Ok(n) => Ok(Text(IntToDecimal(n)))
    case Err(f) => Err(f)
  }

  function Truth(b: bool): Value {
    if b then Text("#t") else Text("#f")
  }

  /** `add`: the sum, starting from 0. */
  function AddOp(args: seq<Value>): (r: Result<Value>)
    ensures Ints(args).Ok? ==> r == Ok(Text(IntToDecimal(Sum(Ints(args).value))))
    ensures Ints(args).Err? ==> r == Err(NoMethod)
  {
    Numeral(AddFrom(0, args))
  }

  /** `multiply`: the product, starting from 1. */
  function MultiplyOp(args: seq<Value>): (r: Result<Value>)
    ensures Ints(args).Ok? ==> r == Ok(Text(IntToDecimal(Product(Ints(args).value))))
    ensures Ints(args).Err? ==> r == Err(NoMethod)
  {
    Numeral(MulFrom(1, args))
  }

  /** `subtract`: `args.shift.to_i` seeds the fold, so no arguments give 0
      (`nil.to_i`) and a single argument comes back un-negated. */
  function SubtractOp(args: seq<Value>): (r: Result<Value>)
    ensures args == [] ==> r == Ok(Text("0"))
    ensures args != [] && Ints(args).Ok? ==>
              var ns := Ints(args).value;
              r == Ok(Text(IntToDecimal(ns[0] - Sum(ns[1..]))))
    ensures Ints(args).Err? ==> r == Err(NoMethod)
  {
    if args == [] then Numeral(ToInt(Nil))
    else
      match ToInt(args[0])
      case Err(f) => Err(f)
      case Ok(seed) => Numeral(SubFrom(seed, args[1..]))
  }

  /** `divide(numerator, denominator)`: exactly two arguments, floor division,
      ZeroDivisionError on a zero denominator. */
  function DivideOp(args: seq<Value>): (r: Result<Value>)
    ensures |args| != 2 ==> r == Err(WrongArity(Divide, |args|))
    ensures |args| == 2 && Ints(args).Err? ==> r == Err(NoMethod)
    ensures |args| == 2 && Ints(args).Ok? ==>
              var ns := Ints(args).value;
              (ns[1] == 0 ==> r == Err(ZeroDivision)) &&
              (ns[1] != 0 ==> r == Ok(Text(IntToDecimal(FloorDiv(ns[0], ns[1])))))
  {
    if |args| != 2 then Err(WrongArity(Divide, |args|))
    else
      match ToInt(args[0])
      case Err(f) => Err(f)
      case Ok(a) =>
        match ToInt(args[1])
        case Err(f) => Err(f)
        case Ok(b) => if b == 0 then Err(ZeroDivision) else Ok(Text(IntToDecimal(FloorDiv(a, b))))
  }

  /** `eq?(first, second)`: "#t" when Ruby's `==` holds, "#f" otherwise. */
  function EqOp(args: seq<Value>): (r: Result<Value>)
    ensures |args| != 2 <==> r.Err?
    ensures |args| != 2 ==> r == Err(WrongArity(Eq, |args|))
    ensures |args| == 2 ==> (r == Ok(Text("#t")) <==> args[0] == args[1])
    ensures |args| == 2 ==> (r == Ok(Text("#f")) <==> args[0] != args[1])
  {
    if |args| != 2 then Err(WrongArity(Eq, |args|)) else Ok(Truth(args[0] == args[1]))
  }

  /** `lambda?(arg)`: whether its single argument is a closure. */
  function IsLambdaOp(args: seq<Value>): (r: Result<Value>)
    ensures |args| != 1 <==> r.Err?
    ensures |args| != 1 ==> r == Err(WrongArity(IsLambda, |args|))
    ensures |args| == 1 ==> (r == Ok(Text("#t")) <==> args[0].Closure?)
    ensures |args| == 1 ==> (r == Ok(Text("#f")) <==> !args[0].Closure?)
  {
    if |args| != 1 then Err(WrongArity(IsLambda, |args|)) else Ok(Truth(args[0].Closure?))
  }

  /** Invoking builtin `op` on `args` via `env.send`. `atRoot` says whether
      the receiving environment is the root: from any other scope `format`
      resolves to Ruby's own `Kernel#format` instead of the root method. The
      output `display` and `print` write is not modelled; they return the
      string they would write. */
  function CallBuiltin(op: Builtin, args: seq<Value>, atRoot: bool): (r: Result<Value>)
    ensures r.Ok? ==> r.value.Text?
    ensures op == Format && !atRoot ==> r == Err(KernelFormat)
    ensures op == Add ==> r == AddOp(args)
    ensures op == Multiply ==> r == MultiplyOp(args)
    ensures op == Subtract ==> r == SubtractOp(args)
    ensures op == Divide ==> r == DivideOp(args)
    ensures op == Eq ==> r == EqOp(args)
    ensures op == IsLambda ==> r == IsLambdaOp(args)
    ensures op == Quit ==> r == Err(if args == [] then Exit else WrongArity(Quit, |args|))
    ensures op == Error ==> r.Err? && (FormatAll(args).Ok? ==> r.fault == UserError(FormatAll(args).value))
    ensures op in {Display, Print} || (op == Format && atRoot) ==>
              (FormatAll(args).Ok? <==> r.Ok?) && (r.Ok? ==> r.value == Text(FormatAll(args).value))
  {
    match op
    case Add => AddOp(args)
    case Multiply => MultiplyOp(args)
    case Subtract => SubtractOp(args)
    case Divide => DivideOp(args)
    case Quit => if args == [] then Err(Exit) else Err(WrongArity(Quit, |args|))
    case Display => FormatOrFail(args)
    case Print => FormatOrFail(args)
    case Format => if atRoot then FormatOrFail(args) else Err(KernelFormat)
    case Eq => EqOp(args)
    case Error =>
      (match FormatAll(args)
       case Ok(message) => Err(UserError(message))
       case Err(f) => Err(f))
    case IsLambda => IsLambdaOp(args)
  }

  function FormatOrFail(args: seq<Value>): Result<Value> {
    match FormatAll(args)
    case Ok(s) => Ok(Text(s))
    case Err(f) => Err(f)
  }
}
