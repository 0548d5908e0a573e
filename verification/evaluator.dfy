/**
 The evaluator of lisp.rb (`Interpreter#evaluate`, `evaluate_seq`,
 `evaluate_if`, `cond_to_if`, `true?`, `Lambda#apply`) and the `REPL.run`
 composition lex → parse → evaluate_seq.

 Ruby's recursion is unbounded; here every `evaluate` call spends one unit
 of `fuel` and its sub-evaluations get what is left, so fuel bounds the
 nesting depth of `evaluate` calls (the Ruby call stack) and a program that
 recurses deeper ends in `OutOfFuel` rather than in one of the faults.
 */
module Evaluator {
  import opened Syntax
  import opened Values
  import opened Environment
  import opened Builtins
  import opened Lexer
  import opened Parser

  /** The interpreter's mutable world: every environment frame created so far
      and the id the next `Lambda.new` receives. */
  datatype State = State(store: Store, nextId: nat)

  /** Frames are well linked, and every closure bound anywhere captured a
      frame that exists. */
  predicate ValidState(st: State) {
    && ValidStore(st.store)
    && forall i, k :: 0 <= i < |st.store| && k in st.store[i].bindings ==>
         WfValue(st.store[i].bindings[k], |st.store|)
  }

  /** What a step may do to the state: frames are added and existing frames
      may gain or change bindings (`define`), but no frame disappears or is
      relinked to another parent, and ids only grow. */
  predicate Advances(st: State, st': State) {
    && ValidState(st') && |st.store| <= |st'.store| && st.nextId <= st'.nextId
    && forall i :: 0 <= i < |st.store| ==> st'.store[i].parent == st.store[i].parent
  }

  /** The state `Interpreter::Root` is created in: only the root frame, with
      the builtin table. */
  function InitialState(): (st: State)
    ensures ValidState(st) && |st.store| == 1
  {
    State([Frame(RootTable, 0)], 0)
  }

  datatype Outcome<T> = Done(value: T, state: State) | Raised(fault: Fault) | OutOfFuel

  lemma {:induction false} LookupWf(st: State, env: nat, key: Value)
    requires ValidState(st) && env < |st.store| && WfValue(key, |st.store|)
    ensures WfValue(Lookup(st.store, env, key), |st.store|)
    decreases env
  {
    if !BoundIn(st.store[env], key) && env != 0 {
      LookupWf(st, st.store[env].parent, key);
    }
  }

  /** The three answers `true?` can give: Ruby `true`, `false`, or `nil` when
      neither of its two tests matches. */
  datatype Answer = Yes | No | Neither

  /** `true?`: false for "#f", true for "#t", and nil for every other value. */
  function TrueQ(v: Value): (a: Answer)
    ensures a == Yes <==> v == Text("#t")
    ensures a == No <==> v == Text("#f")
  {
    if v == Text("#f") then No else if v == Text("#t") then Yes else Neither
  }

  /** Ruby's `if` on the answer of `true?`: `false` and `nil` are both falsy,
      so only "#t" selects the consequent. */
  predicate IsTrue(v: Value) {
    TrueQ(v) == Yes
  }

  /** `cond_to_if`: the clause list as nested `if` forms. No clauses give the
      `false` sentinel; an `else` clause becomes `(begin actions...)` and
      hides every later clause; any other clause becomes
      `(if predicate (begin actions...) <the rest>)`. A clause that is not a
      list has no `first` (NoMethodError). */
  function CondToIf(clauses: seq<Node>): (r: Result<Node>)
    ensures clauses == [] ==> r == Ok(FalseNode)
    ensures (exists i :: 0 <= i < |clauses| && !clauses[i].List?) && r.Ok? ==>
              exists i :: 0 <= i < |clauses| && clauses[i].List? && At(clauses[i].items, 0) == Atom("else")
  {
    if clauses == [] then Ok(FalseNode)
    else
      var first := clauses[0];
      if !first.List? then Err(NoMethod)
      else
        var pred := At(first.items, 0);
        var actions := List([Atom("begin")] + Tail(first.items, 0));
        if pred == Atom("else") then Ok(actions)
        else
          match CondToIf(Tail(clauses, 0))
          case Err(f) => Err(f)
          case Ok(rest) => Ok(List([Atom("if"), pred, actions, rest]))
  }

  /** Ruby's `flatten` on one element of `@args.zip(values)`. */
  function FlattenNode(n: Node): seq<Value>
    decreases n, 1
  {
    match n
    case Atom(s) => [Text(s)]
    case List(items) => FlattenNodes(items)
    case NilNode => [Nil]
    case FalseNode => [False]
  }

  function FlattenNodes(items: seq<Node>): seq<Value>
    decreases items, 0
  {
    if items == [] then [] else FlattenNode(items[0]) + FlattenNodes(items[1..])
  }

  function FlattenValue(v: Value): seq<Value> {
    match v
    case Quoted(items) => FlattenNodes(items)
    case _ => [v]
  }

  /** Source text flattens to atoms' text, nil and false: never a closure. */
  lemma {:induction false} FlattenNodeNoClosure(n: Node)
    ensures forall i :: 0 <= i < |FlattenNode(n)| ==> !FlattenNode(n)[i].Closure?
    decreases n, 1
  {
    if n.List? {
      FlattenNodesNoClosure(n.items);
    }
  }

  lemma {:induction false} FlattenNodesNoClosure(items: seq<Node>)
    ensures forall i :: 0 <= i < |FlattenNodes(items)| ==> !FlattenNodes(items)[i].Closure?
    decreases items, 0
  {
    if items != [] {
      FlattenNodeNoClosure(items[0]);
      FlattenNodesNoClosure(items[1..]);
      var a: seq<Value> := FlattenNode(items[0]);
      var b: seq<Value> := FlattenNodes(items[1..]);
      forall i | 0 <= i < |a + b|
        ensures !(a + b)[i].Closure?
      {
        if i >= |a| {
          assert (a + b)[i] == b[i - |a|];
        }
      }
    }
  }

  /** The only closure a flattened argument can contain is the argument. */
  lemma FlattenValueClosure(v: Value)
    ensures forall i :: 0 <= i < |FlattenValue(v)| && FlattenValue(v)[i].Closure? ==> FlattenValue(v)[i] == v
  {
    if v.Quoted? {
      FlattenNodesNoClosure(v.items);
    }
  }

  /** The argument `zip` pairs with parameter `i`: nil past the end. */
  function ArgAt(args: seq<Value>, i: nat): Value {
    if i < |args| then args[i] else Nil
  }

  /** `@args.zip(values).flatten`. */
  function ZipFlatten(params: seq<Node>, args: seq<Value>): seq<Value>
    decreases params
  {
    if params == [] then []
    else
      var rest := if args == [] then [] else args[1..];
      FlattenNode(params[0]) + FlattenValue(ArgAt(args, 0)) + ZipFlatten(params[1..], rest)
  }

  /** The only closures among the flattened items are arguments. */
  lemma {:induction false} ZipFlattenClosures(params: seq<Node>, args: seq<Value>)
    ensures forall i :: 0 <= i < |ZipFlatten(params, args)| && ZipFlatten(params, args)[i].Closure? ==>
              ZipFlatten(params, args)[i] in args
    decreases params
  {
    if params != [] {
      var rest := if args == [] then [] else args[1..];
      ZipFlattenClosures(params[1..], rest);
      var node := FlattenNode(params[0]);
      var arg := FlattenValue(ArgAt(args, 0));
      var head: seq<Value> := node + arg;
      var tail: seq<Value> := ZipFlatten(params[1..], rest);
      var all: seq<Value> := head + tail;
      FlattenNodeNoClosure(params[0]);
      FlattenValueClosure(ArgAt(args, 0));
      forall i | 0 <= i < |all| && all[i].Closure?
        ensures all[i] in args
      {
        if i >= |head| {
          assert all[i] == tail[i - |head|];
          assert tail[i - |head|] in rest;
        }
      }
    }
  }

  /** `Hash[*flat]` on an even-length list: keys at even positions, each
      followed by its value, a later duplicate key overriding an earlier one. */
  function HashPairs(flat: seq<Value>): map<Value, Value>
    requires |flat| % 2 == 0
    decreases |flat|
  {
    if flat == [] then map[]
    else HashPairs(flat[..|flat| - 2])[flat[|flat| - 2] := flat[|flat| - 1]]
  }

  /** Every value in the hash is one of the items it was built from. */
  lemma {:induction false} HashPairsValues(flat: seq<Value>)
    requires |flat| % 2 == 0
    ensures forall k :: k in HashPairs(flat) ==> HashPairs(flat)[k] in flat
    decreases |flat|
  {
    if flat != [] {
      var prefix := flat[..|flat| - 2];
      HashPairsValues(prefix);
      forall k | k in HashPairs(prefix)
        ensures HashPairs(prefix)[k] in flat
      {
        assert HashPairs(prefix)[k] in prefix;
      }
    }
  }

  /** The bindings `Lambda#apply` extends the captured environment with:
      `Hash[*@args.zip(values).flatten]`. Parameters that are not a list have
      no `zip` (NoMethodError); an odd number of flattened items makes `Hash[]`
      raise an ArgumentError. */
  function BindArgs(params: Node, args: seq<Value>): (r: Result<map<Value, Value>>)
    ensures !params.List? ==> r == Err(NoMethod)
    ensures r.Ok? ==> forall k :: k in r.value && r.value[k].Closure? ==> r.value[k] in args
  {
    match params
    case List(ps) =>
      var flat := ZipFlatten(ps, args);
      if |flat| % 2 == 1 then Err(OddHashArguments)
      else
        ZipFlattenClosures(ps, args);
        HashPairsValues(flat);
        Ok(HashPairs(flat))
    case _ => Err(NoMethod)
  }

  /** `evaluate(expression, env)`. */
  function Eval(e: Node, env: nat, st: State, fuel: nat): (r: Outcome<Value>)
    requires ValidState(st) && env < |st.store|
    ensures r.Done? ==> Advances(st, r.state) && WfValue(r.value, |r.state.store|)
    decreases fuel, 0, 0
  {
    if fuel == 0 then OutOfFuel
    else if e.List? then EvalForm(e.items, env, st, fuel - 1)
    else
      LookupWf(st, env, OfNode(e));
      Done(Lookup(st.store, env, OfNode(e)), st)
  }

  /** A list expression: the special forms are recognised by the head atom's
      text before anything is looked up; every other list is an application. */
  function EvalForm(items: seq<Node>, env: nat, st: State, fuel: nat): (r: Outcome<Value>)
    requires ValidState(st) && env < |st.store|
    ensures r.Done? ==> Advances(st, r.state) && WfValue(r.value, |r.state.store|)
    decreases fuel, 4, 0
  {
    var head := At(items, 0);
    if head == Atom("lambda") then
      Done(Closure(st.nextId, At(items, 1), Tail(items, 1), env), st.(nextId := st.nextId + 1))
    else if head == Atom("define") then EvalDefine(items, env, st, fuel)
    else if head == Atom("if") then EvalIf(Tail(items, 0), env, st, fuel)
    else if head == Atom("quote") then Done(Quoted(Tail(items, 0)), st)
    else if head == Atom("cond") then
      match CondToIf(Tail(items, 0))
      case Err(f) => Raised(f)
      case Ok(form) => Eval(form, env, st, fuel)
    else if head == Atom("begin") then EvalSeq(Tail(items, 0), env, st, fuel)
    else EvalCall(items, env, st, fuel)
  }

  /** `define`: `(define (name params...) body...)` binds a new closure,
      `(define name expr)` binds the value of `expr`; either way in the
      current frame, and the bound value is the result. */
  function EvalDefine(items: seq<Node>, env: nat, st: State, fuel: nat): (r: Outcome<Value>)
    requires ValidState(st) && env < |st.store|
    ensures r.Done? ==> Advances(st, r.state) && WfValue(r.value, |r.state.store|)
    decreases fuel, 3, 0
  {
    var name := At(items, 1);
    if name.List? then
      var closure := Closure(st.nextId, List(Tail(name.items, 0)), Tail(items, 1), env);
      Done(closure, State(Define(st.store, env, OfNode(At(name.items, 0)), closure), st.nextId + 1))
    else
      match Eval(At(items, 2), env, st, fuel)
      case Done(v, st1) => Done(v, st1.(store := Define(st1.store, env, OfNode(name), v)))
      case Raised(f) => Raised(f)
      case OutOfFuel => OutOfFuel
  }

  /** `evaluate_if` on the forms after `if`: predicate, consequent, alternative. */
  function EvalIf(parts: seq<Node>, env: nat, st: State, fuel: nat): (r: Outcome<Value>)
    requires ValidState(st) && env < |st.store|
    ensures r.Done? ==> Advances(st, r.state) && WfValue(r.value, |r.state.store|)
    decreases fuel, 3, 0
  {
    match Eval(At(parts, 0), env, st, fuel)
    case Done(p, st1) => Eval(if IsTrue(p) then At(parts, 1) else At(parts, 2), env, st1, fuel)
    case Raised(f) => Raised(f)
    case OutOfFuel => OutOfFuel
  }

  /** Procedure application: the operator first, then the arguments left to
      right, then the call. */
  function EvalCall(items: seq<Node>, env: nat, st: State, fuel: nat): (r: Outcome<Value>)
    requires ValidState(st) && env < |st.store|
    ensures r.Done? ==> Advances(st, r.state) && WfValue(r.value, |r.state.store|)
    decreases fuel, 3, 0
  {
    match Eval(At(items, 0), env, st, fuel)
    case Done(fun, st1) =>
      (match EvalArgs(Tail(items, 0), env, st1, fuel)
       case Done(args, st2) => Apply(fun, args, env, st2, fuel)
       case Raised(f) => Raised(f)
       case OutOfFuel => OutOfFuel)
    case Raised(f) => Raised(f)
    case OutOfFuel => OutOfFuel
  }

  /** `exprs.map { |e| evaluate(e, env) }`. */
  function EvalArgs(exprs: seq<Node>, env: nat, st: State, fuel: nat): (r: Outcome<seq<Value>>)
    requires ValidState(st) && env < |st.store|
    ensures r.Done? ==> Advances(st, r.state) && |r.value| == |exprs| && WfValues(r.value, |r.state.store|)
    decreases fuel, 1, |exprs|
  {
    if exprs == [] then Done([], st)
    else
      match Eval(exprs[0], env, st, fuel)
      case Done(v, st1) =>
        (match EvalArgs(exprs[1..], env, st1, fuel)
         case Done(vs, st2) => Done([v] + vs, st2)
         case Raised(f) => Raised(f)
         case OutOfFuel => OutOfFuel)
      case Raised(f) => Raised(f)
      case OutOfFuel => OutOfFuel
  }

  /** `evaluate_seq`: every form in order, the value of the last (nil when
      there is none). */
  function EvalSeq(exprs: seq<Node>, env: nat, st: State, fuel: nat): (r: Outcome<Value>)
    requires ValidState(st) && env < |st.store|
    ensures r.Done? ==> Advances(st, r.state) && WfValue(r.value, |r.state.store|)
    ensures exprs == [] ==> r == Done(Nil, st)
    decreases fuel, 1, |exprs|
  {
    if exprs == [] then Done(Nil, st)
    else
      match Eval(exprs[0], env, st, fuel)
      case Done(v, st1) => if |exprs| == 1 then Done(v, st1) else EvalSeq(exprs[1..], env, st1, fuel)
      case Raised(f) => Raised(f)
      case OutOfFuel => OutOfFuel
  }

  /** Calling an evaluated operator. A builtin runs as `env.send(op, *args)`
      on the caller's frame; a closure runs its body in a new child of the
      frame it captured (never the caller's); anything else raises
      "No such function". */
  function Apply(fun: Value, args: seq<Value>, env: nat, st: State, fuel: nat): (r: Outcome<Value>)
    requires ValidState(st) && env < |st.store|
    requires WfValue(fun, |st.store|) && WfValues(args, |st.store|)
    ensures r.Done? ==> Advances(st, r.state) && WfValue(r.value, |r.state.store|)
    ensures !fun.Prim? && !fun.Closure? ==> r == Raised(NoSuchFunction(fun))
    decreases fuel, 2, 0
  {
    match fun
    case Prim(op) =>
      (match CallBuiltin(op, args, env == 0)
       case Ok(v) => Done(v, st)
       case Err(f) => Raised(f))
    case Closure(_, params, body, captured) =>
      (match BindArgs(params, args)
       case Err(f) => Raised(f)
       case Ok(bindings) =>
         var (store', child) := Extend(st.store, captured, bindings);
         EvalSeq(body, child, State(store', st.nextId), fuel))
    case _ => Raised(NoSuchFunction(fun))
  }

  /** `REPL.run(input)`: lex, parse, and evaluate the forms in the root scope. */
  function Run(text: string, st: State, fuel: nat): (r: Outcome<Value>)
    requires ValidState(st)
    ensures r.Done? ==> Advances(st, r.state)
  {
    EvalSeq(Parse(Lex(text)).items, 0, st, fuel)
  }
}
