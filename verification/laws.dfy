/**
 What the evaluator of lisp.rb does, stated against independent descriptions:
 special forms are recognised by text, `if` follows only "#t", `cond` tries
 its clauses in order, closures bind their parameters positionally and run in
 the scope they captured, `define` is seen by later lookups, and evaluating a
 rendered tree through `REPL.run` is evaluating the tree.
 */
module Laws {
  import opened Syntax
  import opened Values
  import opened Environment
  import opened Numerals
  import opened Builtins
  import opened Render
  import opened Lexer
  import opened Parser
  import opened RoundTrip
  import opened Evaluator

  // ---- special forms ----

  /** `(quote x...)` is the list of the forms after `quote`, unevaluated,
      whatever `quote` or those forms are bound to: the keyword is matched
      as text before any lookup. */
  lemma QuoteIsUnevaluated(rest: seq<Node>, env: nat, st: State, fuel: nat)
    requires ValidState(st) && env < |st.store| && fuel > 0
    ensures Eval(List([Atom("quote")] + rest), env, st, fuel) == Done(Quoted(rest), st)
  {
    assert Tail([Atom("quote")] + rest, 0) == rest;
  }

  /** `if` evaluates its predicate, then exactly one branch, in the state the
      predicate left: the consequent when the predicate's value is "#t", the
      alternative for "#f" and for every other value. */
  lemma IfFollowsOnlyTrue(p: Node, c: Node, a: Node, env: nat, st: State, fuel: nat)
    requires ValidState(st) && env < |st.store| && fuel > 0
    ensures var q := Eval(p, env, st, fuel - 1);
            var r := Eval(List([Atom("if"), p, c, a]), env, st, fuel);
            && (q.Done? && q.value == Text("#t") ==> r == Eval(c, env, q.state, fuel - 1))
            && (q.Done? && q.value != Text("#t") ==> r == Eval(a, env, q.state, fuel - 1))
            && (q.Raised? ==> r == Raised(q.fault))
  {
    IfIsEvalIf(p, c, a, env, st, fuel);
  }

  lemma IfIsEvalIf(p: Node, c: Node, a: Node, env: nat, st: State, fuel: nat)
    requires ValidState(st) && env < |st.store| && fuel > 0
    ensures Eval(List([Atom("if"), p, c, a]), env, st, fuel) == EvalIf([p, c, a], env, st, fuel - 1)
  {
    var items := [Atom("if"), p, c, a];
    assert Tail(items, 0) == [p, c, a];
    assert Eval(List(items), env, st, fuel) == EvalForm(items, env, st, fuel - 1);
  }

  /** An `else` clause ends the chain: its actions become the whole `begin`,
      and the clauses after it are never looked at. */
  lemma CondElseHidesRest(actions: seq<Node>, rest: seq<Node>)
    ensures CondToIf([List([Atom("else")] + actions)] + rest) == Ok(List([Atom("begin")] + actions))
  {
    var clauses := [List([Atom("else")] + actions)] + rest;
    assert clauses[0].items == [Atom("else")] + actions;
    assert Tail(clauses[0].items, 0) == actions;
  }

  /** Clause `k` is not a list, and every clause before it is a list that is
      not an `else` clause, so desugaring reaches it. */
  predicate Blocked(clauses: seq<Node>, k: nat) {
    && k < |clauses| && !clauses[k].List?
    && forall j :: 0 <= j < k ==> clauses[j].List? && At(clauses[j].items, 0) != Atom("else")
  }

  /** Desugaring fails, with a NoMethodError, exactly when a clause that is
      not a list is reached before any `else` clause. */
  lemma CondToIfFails(clauses: seq<Node>)
    ensures CondToIf(clauses).Err? <==> exists k :: Blocked(clauses, k)
    ensures CondToIf(clauses).Err? ==> CondToIf(clauses).fault == NoMethod
  {
    if CondToIf(clauses).Err? {
      var k := BlockedWitness(clauses);
    }
    if exists k :: Blocked(clauses, k) {
      var k :| Blocked(clauses, k);
      BlockedFails(clauses, k);
    }
  }

  lemma {:induction false} BlockedWitness(clauses: seq<Node>) returns (k: nat)
    requires CondToIf(clauses).Err?
    ensures Blocked(clauses, k) && CondToIf(clauses).fault == NoMethod
    decreases |clauses|
  {
    if !clauses[0].List? {
      k := 0;
    } else {
      var rest := Tail(clauses, 0);
      var k' := BlockedWitness(rest);
      k := k' + 1;
      assert clauses[k] == rest[k'];
      forall j | 0 <= j < k
        ensures clauses[j].List? && At(clauses[j].items, 0) != Atom("else")
      {
        if j > 0 {
          assert clauses[j] == rest[j - 1];
        }
      }
    }
  }

  lemma {:induction false} BlockedFails(clauses: seq<Node>, k: nat)
    requires Blocked(clauses, k)
    ensures CondToIf(clauses) == Err(NoMethod)
    decreases k
  {
    if k > 0 {
      var rest := Tail(clauses, 0);
      assert clauses[0].List? && At(clauses[0].items, 0) != Atom("else");
      forall j | 0 <= j < k - 1
        ensures rest[j].List? && At(rest[j].items, 0) != Atom("else")
      {
        assert rest[j] == clauses[j + 1];
      }
      assert rest[k - 1] == clauses[k];
      BlockedFails(rest, k - 1);
    }
  }

  /** `cond` tries its clauses in order. A first clause whose predicate gives
      "#t" runs its actions as a sequence, in the state the predicate left. */
  lemma CondTakesTrueClause(p: Node, actions: seq<Node>, rest: seq<Node>, env: nat, st: State, fuel: nat)
    requires ValidState(st) && env < |st.store| && fuel >= 3
    requires p != Atom("else") && CondToIf(rest).Ok?
    requires Eval(p, env, st, fuel - 2).Done? && IsTrue(Eval(p, env, st, fuel - 2).value)
    ensures Eval(List([Atom("cond"), List([p] + actions)] + rest), env, st, fuel)
              == EvalSeq(actions, env, Eval(p, env, st, fuel - 2).state, fuel - 3)
  {
    var q := Eval(p, env, st, fuel - 2);
    var begin := List([Atom("begin")] + actions);
    CondAsIf(p, actions, rest, env, st, fuel);
    IfIsEvalIf(p, begin, CondToIf(rest).value, env, st, fuel - 1);
    assert EvalIf([p, begin, CondToIf(rest).value], env, st, fuel - 2) == Eval(begin, env, q.state, fuel - 2);
    BeginIsSeq(actions, env, q.state, fuel - 2);
  }

  /** Any other value of the first clause's predicate moves on to the
      remaining clauses, in the state the predicate left. */
  lemma CondSkipsOtherClause(p: Node, actions: seq<Node>, rest: seq<Node>, env: nat, st: State, fuel: nat)
    requires ValidState(st) && env < |st.store| && fuel >= 3
    requires p != Atom("else") && CondToIf(rest).Ok?
    requires Eval(p, env, st, fuel - 2).Done? && !IsTrue(Eval(p, env, st, fuel - 2).value)
    ensures Eval(List([Atom("cond"), List([p] + actions)] + rest), env, st, fuel)
              == Eval(List([Atom("cond")] + rest), env, Eval(p, env, st, fuel - 2).state, fuel - 1)
  {
    var q := Eval(p, env, st, fuel - 2);
    var begin := List([Atom("begin")] + actions);
    CondAsIf(p, actions, rest, env, st, fuel);
    IfIsEvalIf(p, begin, CondToIf(rest).value, env, st, fuel - 1);
    assert EvalIf([p, begin, CondToIf(rest).value], env, st, fuel - 2) == Eval(CondToIf(rest).value, env, q.state, fuel - 2);
    CondIsItsDesugaring(rest, env, q.state, fuel - 1);
  }

  /** A predicate that raises makes the whole `cond` raise the same fault. */
  lemma CondPropagatesFault(p: Node, actions: seq<Node>, rest: seq<Node>, env: nat, st: State, fuel: nat)
    requires ValidState(st) && env < |st.store| && fuel >= 3
    requires p != Atom("else") && CondToIf(rest).Ok?
    requires Eval(p, env, st, fuel - 2).Raised?
    ensures Eval(List([Atom("cond"), List([p] + actions)] + rest), env, st, fuel)
              == Raised(Eval(p, env, st, fuel - 2).fault)
  {
    CondAsIf(p, actions, rest, env, st, fuel);
    IfIsEvalIf(p, List([Atom("begin")] + actions), CondToIf(rest).value, env, st, fuel - 1);
  }

  /** A `cond` whose first clause is not `else` evaluates as the `if` it
      desugars to. */
  lemma CondAsIf(p: Node, actions: seq<Node>, rest: seq<Node>, env: nat, st: State, fuel: nat)
    requires ValidState(st) && env < |st.store| && fuel >= 1
    requires p != Atom("else") && CondToIf(rest).Ok?
    ensures Eval(List([Atom("cond"), List([p] + actions)] + rest), env, st, fuel)
              == Eval(List([Atom("if"), p, List([Atom("begin")] + actions), CondToIf(rest).value]), env, st, fuel - 1)
  {
    CondDesugar(p, actions, rest);
    var clauses := [List([p] + actions)] + rest;
    assert [Atom("cond"), List([p] + actions)] + rest == [Atom("cond")] + clauses;
    CondIsItsDesugaring(clauses, env, st, fuel);
  }

  /** A clause that is not `else` becomes an `if` over the rest. */
  lemma CondDesugar(p: Node, actions: seq<Node>, rest: seq<Node>)
    requires p != Atom("else") && CondToIf(rest).Ok?
    ensures CondToIf([List([p] + actions)] + rest)
              == Ok(List([Atom("if"), p, List([Atom("begin")] + actions), CondToIf(rest).value]))
  {
    var clause := List([p] + actions);
    assert ([clause] + rest)[0] == clause;
    assert Tail([clause] + rest, 0) == rest;
    assert At(clause.items, 0) == p;
    assert Tail(clause.items, 0) == actions;
  }

  /** `(begin actions...)` evaluates the actions in sequence. */
  lemma BeginIsSeq(actions: seq<Node>, env: nat, st: State, fuel: nat)
    requires ValidState(st) && env < |st.store| && fuel >= 1
    ensures Eval(List([Atom("begin")] + actions), env, st, fuel) == EvalSeq(actions, env, st, fuel - 1)
  {
    var begin := [Atom("begin")] + actions;
    assert Tail(begin, 0) == actions;
    assert Eval(List(begin), env, st, fuel) == EvalForm(begin, env, st, fuel - 1);
  }

  /** `(cond clauses...)` evaluates the form the clauses desugar to. */
  lemma CondIsItsDesugaring(clauses: seq<Node>, env: nat, st: State, fuel: nat)
    requires ValidState(st) && env < |st.store| && fuel >= 1 && CondToIf(clauses).Ok?
    ensures Eval(List([Atom("cond")] + clauses), env, st, fuel) == Eval(CondToIf(clauses).value, env, st, fuel - 1)
  {
    var more := [Atom("cond")] + clauses;
    assert Tail(more, 0) == clauses;
    assert Eval(List(more), env, st, fuel) == EvalForm(more, env, st, fuel - 1);
  }

  /** A `cond` with no clause left yields Ruby's `false` (not "#f") as long as
      no scope gives `false` a truthy binding. */
  lemma EmptyCondIsFalse(env: nat, st: State, fuel: nat)
    requires ValidState(st) && env < |st.store| && fuel >= 2
    requires forall i :: 0 <= i < |st.store| ==> !BoundIn(st.store[i], False)
    ensures Eval(List([Atom("cond")]), env, st, fuel) == Done(False, st)
  {
    assert Tail([Atom("cond")], 0) == [];
    assert Eval(List([Atom("cond")]), env, st, fuel) == Eval(FalseNode, env, st, fuel - 1);
    var ch := Ancestors(st.store, env);
    forall k | 0 <= k < |ch|
      ensures !BoundIn(st.store[ch[k]], False)
    {
      assert ch[k] <= env;
    }
    LookupFallsBackToName(st.store, env, False);
  }

  // ---- closures ----

  lemma ZipFlattenCons(ps: seq<Node>, args: seq<Value>)
    requires ps != []
    ensures ZipFlatten(ps, args)
              == FlattenNode(ps[0]) + FlattenValue(ArgAt(args, 0)) + ZipFlatten(ps[1..], if args == [] then [] else args[1..])
  {
  }

  lemma {:induction false} ZipFlattenSnoc(ps: seq<Node>, p: Node, args: seq<Value>)
    ensures ZipFlatten(ps + [p], args) == ZipFlatten(ps, args) + FlattenNode(p) + FlattenValue(ArgAt(args, |ps|))
    decreases ps
  {
    if ps == [] {
      assert ps + [p] == [p];
      assert ZipFlatten([p], args) == FlattenNode(p) + FlattenValue(ArgAt(args, 0)) + ZipFlatten([], []);
    } else {
      var rest: seq<Value> := if args == [] then [] else args[1..];
      var all := ps + [p];
      assert all[0] == ps[0];
      assert all[1..] == ps[1..] + [p];
      var head: seq<Value> := FlattenNode(ps[0]) + FlattenValue(ArgAt(args, 0));
      var last: seq<Value> := FlattenNode(p) + FlattenValue(ArgAt(args, |ps|));
      assert ArgAt(rest, |ps| - 1) == ArgAt(args, |ps|);
      ZipFlattenSnoc(ps[1..], p, rest);
      ZipFlattenCons(all, args);
      ZipFlattenCons(ps, args);
      var mid := ZipFlatten(ps[1..], rest);
      ConcatAssoc(mid, FlattenNode(p), FlattenValue(ArgAt(args, |ps|)));
      assert ZipFlatten(ps[1..] + [p], rest) == mid + last;
      assert ZipFlatten(all, args) == head + (mid + last);
      ConcatAssoc(head, mid, last);
    }
  }

  predicate Distinct(ps: seq<Node>) {
    forall i, j :: 0 <= i < j < |ps| ==> ps[i] != ps[j]
  }

  predicate AllAtoms(ps: seq<Node>) {
    forall i :: 0 <= i < |ps| ==> ps[i].Atom?
  }

  predicate NoQuoted(args: seq<Value>) {
    forall i :: 0 <= i < |args| ==> !args[i].Quoted?
  }

  /** The map binds each parameter of `ps` to its argument, and nothing else. */
  predicate BindsPositionally(m: map<Value, Value>, ps: seq<Node>, args: seq<Value>)
    requires AllAtoms(ps)
  {
    && (forall i :: 0 <= i < |ps| ==> Text(ps[i].name) in m && m[Text(ps[i].name)] == ArgAt(args, i))
    && (forall k :: k in m ==> exists i :: 0 <= i < |ps| && k == Text(ps[i].name))
  }

  lemma {:induction false} PlainBindings(ps: seq<Node>, args: seq<Value>)
    requires AllAtoms(ps) && Distinct(ps) && NoQuoted(args)
    ensures |ZipFlatten(ps, args)| == 2 * |ps|
    ensures BindsPositionally(HashPairs(ZipFlatten(ps, args)), ps, args)
    decreases |ps|
  {
    if ps != [] {
      var n := |ps|;
      var init := ps[..n - 1];
      var p := ps[n - 1];
      assert ps == init + [p];
      DropLast(ps);
      PlainBindings(init, args);
      assert !ArgAt(args, n - 1).Quoted?;
      BindLast(init, p, args);
    }
  }

  lemma DropLast(ps: seq<Node>)
    requires ps != [] && AllAtoms(ps) && Distinct(ps)
    ensures AllAtoms(ps[..|ps| - 1]) && Distinct(ps[..|ps| - 1])
  {
  }

  /** Binding one more parameter, given the bindings of the ones before it. */
  lemma BindLast(init: seq<Node>, p: Node, args: seq<Value>)
    requires p.Atom? && AllAtoms(init + [p]) && Distinct(init + [p]) && AllAtoms(init)
    requires !ArgAt(args, |init|).Quoted?
    requires |ZipFlatten(init, args)| == 2 * |init|
    requires BindsPositionally(HashPairs(ZipFlatten(init, args)), init, args)
    ensures |ZipFlatten(init + [p], args)| == 2 * |init + [p]|
    ensures BindsPositionally(HashPairs(ZipFlatten(init + [p], args)), init + [p], args)
  {
    var z0 := ZipFlatten(init, args);
    var v := ArgAt(args, |init|);
    LastPair(init, p, args);
    DoubleIsEven(|init|);
    HashPairsSnoc(z0, Text(p.name), v);
    BindOneMore(HashPairs(z0), init, p, args);
  }

  lemma DoubleIsEven(n: nat)
    ensures (2 * n) % 2 == 0
  {
  }

  /** A last parameter that is an atom adds its name and its argument. */
  lemma LastPair(init: seq<Node>, p: Node, args: seq<Value>)
    requires p.Atom? && !ArgAt(args, |init|).Quoted?
    ensures ZipFlatten(init + [p], args) == ZipFlatten(init, args) + [Text(p.name), ArgAt(args, |init|)]
  {
    var z0 := ZipFlatten(init, args);
    var v := ArgAt(args, |init|);
    ZipFlattenSnoc(init, p, args);
    assert FlattenValue(v) == [v];
    assert FlattenNode(p) == [Text(p.name)];
    ConcatAssoc(z0, [Text(p.name)], [v]);
    assert [Text(p.name)] + [v] == [Text(p.name), v];
  }

  lemma BindOneMore(m0: map<Value, Value>, init: seq<Node>, p: Node, args: seq<Value>)
    requires p.Atom? && AllAtoms(init + [p]) && Distinct(init + [p])
    requires AllAtoms(init) && BindsPositionally(m0, init, args)
    ensures BindsPositionally(m0[Text(p.name) := ArgAt(args, |init|)], init + [p], args)
  {
    var ps := init + [p];
    var n := |ps|;
    var m := m0[Text(p.name) := ArgAt(args, |init|)];
    forall i | 0 <= i < n
      ensures Text(ps[i].name) in m && m[Text(ps[i].name)] == ArgAt(args, i)
    {
      if i < n - 1 {
        assert ps[i] == init[i];
        assert ps[i] != ps[n - 1];
        assert Text(ps[i].name) != Text(p.name);
      }
    }
    forall k | k in m
      ensures exists i :: 0 <= i < n && k == Text(ps[i].name)
    {
      if k != Text(p.name) {
        var i :| 0 <= i < n - 1 && k == Text(init[i].name);
        assert init[i] == ps[i];
      } else {
        assert k == Text(ps[n - 1].name);
      }
    }
  }

  lemma HashPairsSnoc(flat: seq<Value>, k: Value, v: Value)
    requires |flat| % 2 == 0
    ensures HashPairs(flat + [k, v]) == HashPairs(flat)[k := v]
  {
    var all := flat + [k, v];
    assert all[..|all| - 2] == flat;
  }

  /** `Hash[*@args.zip(values).flatten]` for distinct parameter names and
      arguments that are not quoted lists: parameter `i` is bound to argument
      `i`, a missing argument to nil, extra arguments are ignored, and nothing
      else is bound. */
  lemma BindArgsZip(ps: seq<Node>, args: seq<Value>)
    requires AllAtoms(ps) && Distinct(ps) && NoQuoted(args)
    ensures BindArgs(List(ps), args).Ok?
    ensures BindsPositionally(BindArgs(List(ps), args).value, ps, args)
  {
    PlainBindings(ps, args);
  }

  /** A closure's body runs in a scope built from the frame it captured, so
      the scope it is called from makes no difference. */
  lemma ClosureIgnoresCaller(c: Value, args: seq<Value>, caller1: nat, caller2: nat, st: State, fuel: nat)
    requires ValidState(st) && caller1 < |st.store| && caller2 < |st.store|
    requires c.Closure? && WfValue(c, |st.store|) && WfValues(args, |st.store|)
    ensures Apply(c, args, caller1, st, fuel) == Apply(c, args, caller2, st, fuel)
  {
  }

  /** Inside a call, a parameter name is read from the call's own frame;
      every other name is read as in the captured scope. */
  lemma CallScope(c: Value, args: seq<Value>, st: State, key: Value)
    requires ValidState(st) && c.Closure? && c.env < |st.store|
    requires BindArgs(c.params, args).Ok?
    ensures var b := BindArgs(c.params, args).value;
            var (s', child) := Extend(st.store, c.env, b);
            Lookup(s', child, key) == if key in b && Truthy(b[key]) then b[key] else Lookup(st.store, c.env, key)
  {
    ExtendLookup(st.store, c.env, BindArgs(c.params, args).value, key, c.env);
  }

  /** Calling a closure: the arguments are bound by `Hash[*zip.flatten]`, a
      new frame holding them is made a child of the captured frame, and the
      body runs there as a sequence. */
  lemma ApplyClosure(c: Value, args: seq<Value>, env: nat, st: State, fuel: nat)
    requires ValidState(st) && env < |st.store|
    requires c.Closure? && WfValue(c, |st.store|) && WfValues(args, |st.store|)
    requires BindArgs(c.params, args).Ok?
    ensures var child := State(st.store + [Frame(BindArgs(c.params, args).value, c.env)], st.nextId);
            && ValidState(child)
            && Apply(c, args, env, st, fuel) == EvalSeq(c.body, |st.store|, child, fuel)
  {
  }

  /** A closure whose parameters cannot be bound raises that binding fault. */
  lemma ApplyClosureBindFails(c: Value, args: seq<Value>, env: nat, st: State, fuel: nat)
    requires ValidState(st) && env < |st.store|
    requires c.Closure? && WfValue(c, |st.store|) && WfValues(args, |st.store|)
    requires BindArgs(c.params, args).Err?
    ensures Apply(c, args, env, st, fuel) == Raised(BindArgs(c.params, args).fault)
  {
  }

  /** Calling a builtin: `env.send(op, *args)` with no evaluation of its own,
      so the state is untouched and a Ruby exception becomes the fault. */
  lemma ApplyBuiltin(op: Builtin, args: seq<Value>, env: nat, st: State, fuel: nat)
    requires ValidState(st) && env < |st.store| && WfValues(args, |st.store|)
    ensures var b := CallBuiltin(op, args, env == 0);
            var r := Apply(Prim(op), args, env, st, fuel);
            && (b.Ok? ==> r == Done(b.value, st))
            && (b.Err? ==> r == Raised(b.fault))
  {
  }

  /** The six words `evaluate` recognises before any lookup. */
  predicate Keyword(n: Node) {
    n in {Atom("lambda"), Atom("define"), Atom("if"), Atom("quote"), Atom("cond"), Atom("begin")}
  }

  /** `(lambda params body...)` evaluates nothing: it makes a fresh closure
      over the current scope, the id counter moves on and the frames stay. */
  lemma LambdaMakesClosure(ps: Node, body: seq<Node>, env: nat, st: State, fuel: nat)
    requires ValidState(st) && env < |st.store| && fuel > 0
    ensures Eval(List([Atom("lambda"), ps] + body), env, st, fuel)
              == Done(Closure(st.nextId, ps, body, env), st.(nextId := st.nextId + 1))
  {
    var items := [Atom("lambda"), ps] + body;
    assert At(items, 0) == Atom("lambda") && At(items, 1) == ps;
    assert Tail(items, 1) == body;
  }

  /** A list whose head is not a keyword is an application: the head is
      evaluated first, and a head that raises stops the call before any
      argument is evaluated; then the arguments are evaluated from the state
      the head left, and the procedure is applied in the state they left. */
  lemma CallOrder(f: Node, es: seq<Node>, env: nat, st: State, fuel: nat)
    requires ValidState(st) && env < |st.store| && fuel > 0 && !Keyword(f)
    ensures var r := Eval(List([f] + es), env, st, fuel);
            var q := Eval(f, env, st, fuel - 1);
            && (q.Raised? ==> r == Raised(q.fault))
            && (q.OutOfFuel? ==> r == OutOfFuel)
            && (q.Done? ==>
                  var a := EvalArgs(es, env, q.state, fuel - 1);
                  && (a.Raised? ==> r == Raised(a.fault))
                  && (a.OutOfFuel? ==> r == OutOfFuel)
                  && (a.Done? ==> r == Apply(q.value, a.value, env, a.state, fuel - 1)))
  {
    var items := [f] + es;
    assert At(items, 0) == f && Tail(items, 0) == es;
    assert Eval(List(items), env, st, fuel) == EvalCall(items, env, st, fuel - 1);
  }

  /** The arguments are evaluated left to right: one more argument at the end
      is evaluated in the state the others left, and its value comes last. */
  lemma {:induction false} EvalArgsSnoc(exprs: seq<Node>, e: Node, env: nat, st: State, fuel: nat)
    requires ValidState(st) && env < |st.store|
    ensures var a := EvalArgs(exprs, env, st, fuel);
            var r := EvalArgs(exprs + [e], env, st, fuel);
            && (a.Raised? ==> r == Raised(a.fault))
            && (a.OutOfFuel? ==> r == OutOfFuel)
            && (a.Done? ==>
                  var q := Eval(e, env, a.state, fuel);
                  && (q.Raised? ==> r == Raised(q.fault))
                  && (q.OutOfFuel? ==> r == OutOfFuel)
                  && (q.Done? ==> r == Done(a.value + [q.value], q.state)))
    decreases |exprs|
  {
    var all := exprs + [e];
    if exprs == [] {
      assert all == [e] && all[1..] == [];
      var q := Eval(e, env, st, fuel);
      if q.Done? {
        assert [q.value] + [] == [] + [q.value];
      }
    } else {
      assert all[0] == exprs[0];
      assert all[1..] == exprs[1..] + [e];
      var q := Eval(exprs[0], env, st, fuel);
      if q.Done? {
        EvalArgsSnoc(exprs[1..], e, env, q.state, fuel);
        var a := EvalArgs(exprs[1..], env, q.state, fuel);
        if a.Done? {
          var q2 := Eval(e, env, a.state, fuel);
          if q2.Done? {
            assert [q.value] + (a.value + [q2.value]) == ([q.value] + a.value) + [q2.value];
          }
        }
      }
    }
  }

  // ---- define ----

  /** `(define name expr)` evaluates `expr` once, binds its value to `name` in
      the current frame, and returns it; afterwards the name evaluates, in the
      same scope, to that value (provided it is neither nil nor false, which
      `lookup`'s `||` would skip). */
  lemma DefineIsSeen(name: string, e: Node, env: nat, st: State, fuel: nat)
    requires ValidState(st) && env < |st.store| && fuel > 0
    ensures var r := Eval(List([Atom("define"), Atom(name), e]), env, st, fuel);
            var q := Eval(e, env, st, fuel - 1);
            && (q.Done? ==> r == Done(q.value, q.state.(store := Define(q.state.store, env, Text(name), q.value))))
            && (q.Raised? ==> r == Raised(q.fault))
            && (q.OutOfFuel? ==> r == OutOfFuel)
    ensures var r := Eval(List([Atom("define"), Atom(name), e]), env, st, fuel);
            r.Done? && Truthy(r.value) ==> Eval(Atom(name), env, r.state, 1) == Done(r.value, r.state)
  {
    var items := [Atom("define"), Atom(name), e];
    assert At(items, 1) == Atom(name) && At(items, 2) == e;
    assert Eval(List(items), env, st, fuel) == EvalDefine(items, env, st, fuel - 1);
    var q := Eval(e, env, st, fuel - 1);
    if q.Done? && Truthy(q.value) {
      var s := q.state.store;
      DefineIsVisible(s, env, Text(name), q.value, env);
    }
  }

  /** `(define (f params...) body...)` binds `f`, in the current frame, to a
      fresh closure over `params` and `body` that captured the defining scope
      (nothing is evaluated, and the id counter moves on), so inside any call of it — a new frame whose parent is
      that scope — `f` still names the closure unless a parameter shadows it:
      this is what makes recursion work. */
  lemma DefinedProcedureSeesItself(f: string, ps: seq<Node>, body: seq<Node>, env: nat, st: State, fuel: nat,
                                   b: map<Value, Value>)
    requires ValidState(st) && env < |st.store| && fuel > 0
    requires !(Text(f) in b && Truthy(b[Text(f)]))
    ensures var r := Eval(List([Atom("define"), List([Atom(f)] + ps)] + body), env, st, fuel);
            && r.Done? && r.value.Closure? && r.value.env == env && r.value.body == body
            && r.value.params == List(ps) && r.value.id == st.nextId
            && r.state == State(Define(st.store, env, Text(f), r.value), st.nextId + 1)
            && Lookup(Extend(r.state.store, env, b).0, |r.state.store|, Text(f)) == r.value
  {
    var items := [Atom("define"), List([Atom(f)] + ps)] + body;
    assert At(items, 1) == List([Atom(f)] + ps);
    assert At(List([Atom(f)] + ps).items, 0) == Atom(f);
    assert Tail(items, 1) == body;
    var closure := Closure(st.nextId, List(ps), body, env);
    assert Tail([Atom(f)] + ps, 0) == ps;
    var s := Define(st.store, env, Text(f), closure);
    assert Eval(List(items), env, st, fuel) == EvalDefine(items, env, st, fuel - 1);
    assert EvalDefine(items, env, st, fuel - 1) == Done(closure, State(s, st.nextId + 1));
    DefineIsVisible(st.store, env, Text(f), closure, env);
    ExtendLookup(s, env, b, Text(f), env);
  }

  // ---- sequences and the REPL ----

  /** `evaluate_seq` is left to right and keeps the last value: one more form
      at the end is evaluated in the state the others left. */
  lemma {:induction false} EvalSeqSnoc(exprs: seq<Node>, e: Node, env: nat, st: State, fuel: nat)
    requires ValidState(st) && env < |st.store| && exprs != []
    ensures var r := EvalSeq(exprs, env, st, fuel);
            EvalSeq(exprs + [e], env, st, fuel) == if r.Done? then Eval(e, env, r.state, fuel) else r
    decreases |exprs|
  {
    var all := exprs + [e];
    assert all[0] == exprs[0];
    assert all[1..] == exprs[1..] + [e];
    var q := Eval(exprs[0], env, st, fuel);
    if q.Done? {
      if |exprs| == 1 {
        assert all[1..] == [e];
        assert [e][1..] == [];
      } else {
        EvalSeqSnoc(exprs[1..], e, env, q.state, fuel);
      }
    }
  }

  /** Running the text `ast_to_string` writes for a printable tree evaluates
      that tree in the root scope. */
  lemma RunRendered(n: Node, st: State, fuel: nat)
    requires ValidState(st) && Printable(n)
    ensures RenderNode(n).Ok?
    ensures Run(RenderNode(n).value, st, fuel) == Eval(n, 0, st, fuel)
  {
    RenderLexParse(n);
    assert [n][1..] == [];
  }

  // ---- builtins on numerals ----

  /** Reading two arguments as integers: both readings, or the fault. */
  lemma IntsPair(a: Value, b: Value)
    ensures Ints([a, b]) == if ToInt(a).Ok? && ToInt(b).Ok? then Ok([ToInt(a).value, ToInt(b).value]) else Err(NoMethod)
  {
    assert [a, b][1..] == [b];
    assert [b][1..] == [];
    assert Ints([b]) == if ToInt(b).Ok? then Ok([ToInt(b).value]) else Err(NoMethod) by {
      assert Ints([b][1..]) == Ok([]);
      if ToInt(b).Ok? {
        assert [ToInt(b).value] + [] == [ToInt(b).value];
      }
    }
    if ToInt(a).Ok? && ToInt(b).Ok? {
      assert [ToInt(a).value] + [ToInt(b).value] == [ToInt(a).value, ToInt(b).value];
    }
  }

  lemma IntsOfNumerals(x: int, y: int)
    ensures Ints([Text(IntToDecimal(x)), Text(IntToDecimal(y))]) == Ok([x, y])
  {
    DecimalRoundTrip(x);
    DecimalRoundTrip(y);
    IntsPair(Text(IntToDecimal(x)), Text(IntToDecimal(y)));
  }

  /** On numerals `+` is integer addition written back as a numeral. */
  lemma AddOnNumerals(x: int, y: int, atRoot: bool)
    ensures CallBuiltin(Add, [Text(IntToDecimal(x)), Text(IntToDecimal(y))], atRoot) == Ok(Text(IntToDecimal(x + y)))
  {
    IntsOfNumerals(x, y);
    assert [x, y][1..] == [y];
    assert Sum([y]) == y;
  }

  /** On numerals `-` is integer subtraction written back as a numeral. */
  lemma SubtractOnNumerals(x: int, y: int, atRoot: bool)
    ensures CallBuiltin(Subtract, [Text(IntToDecimal(x)), Text(IntToDecimal(y))], atRoot) == Ok(Text(IntToDecimal(x - y)))
  {
    var args := [Text(IntToDecimal(x)), Text(IntToDecimal(y))];
    DecimalRoundTrip(x);
    DecimalRoundTrip(y);
    assert ToInt(args[0]) == Ok(x);
    assert args[1..] == [Text(IntToDecimal(y))];
    assert SubFrom(x, [Text(IntToDecimal(y))]) == Ok(x - y) by {
      assert [Text(IntToDecimal(y))][1..] == [];
      assert SubFrom(x - y, []) == Ok(x - y);
    }
    assert SubtractOp(args) == Numeral(SubFrom(x, args[1..]));
    assert CallBuiltin(Subtract, args, atRoot) == SubtractOp(args);
  }

  /** On numerals `*` is integer multiplication written back as a numeral. */
  lemma MultiplyOnNumerals(x: int, y: int, atRoot: bool)
    ensures CallBuiltin(Multiply, [Text(IntToDecimal(x)), Text(IntToDecimal(y))], atRoot) == Ok(Text(IntToDecimal(x * y)))
  {
    IntsOfNumerals(x, y);
    assert [x, y][1..] == [y];
    assert Product([y]) == y;
  }

  /** On numerals `/` is Ruby's floor division, and a zero denominator raises. */
  lemma DivisionOnNumerals(x: int, y: int, atRoot: bool)
    ensures var r := CallBuiltin(Divide, [Text(IntToDecimal(x)), Text(IntToDecimal(y))], atRoot);
            && (y == 0 ==> r == Err(ZeroDivision))
            && (y != 0 ==> r.Ok? && StrToI(r.value.text) == FloorDiv(x, y))
  {
    IntsOfNumerals(x, y);
    if y != 0 {
      DecimalRoundTrip(FloorDiv(x, y));
    }
  }

  /** `eq?` compares text, and decimal text is canonical, so on numerals it
      answers "#t" exactly for equal numbers. */
  lemma EqOnNumerals(x: int, y: int, atRoot: bool)
    ensures CallBuiltin(Eq, [Text(IntToDecimal(x)), Text(IntToDecimal(y))], atRoot) == Ok(Text("#t")) <==> x == y
  {
    DecimalRoundTrip(x);
    DecimalRoundTrip(y);
  }

  /** `+` and `*` ignore the order of their two arguments. */
  lemma AddMultiplyCommute(a: Value, b: Value, atRoot: bool)
    ensures CallBuiltin(Add, [a, b], atRoot) == CallBuiltin(Add, [b, a], atRoot)
    ensures CallBuiltin(Multiply, [a, b], atRoot) == CallBuiltin(Multiply, [b, a], atRoot)
  {
    IntsPair(a, b);
    IntsPair(b, a);
    if Ints([a, b]).Ok? {
      var x := ToInt(a).value;
      var y := ToInt(b).value;
      assert [x, y][1..] == [y] && [y, x][1..] == [x];
      assert [x][1..] == [] && [y][1..] == [];
      assert Sum([x]) == x + Sum([]) == x;
      assert Sum([y]) == y + Sum([]) == y;
      assert Sum([x, y]) == x + Sum([y]) == x + y;
      assert Sum([y, x]) == y + Sum([x]) == y + x;
      assert Product([x]) == x * Product([]) == x;
      assert Product([y]) == y * Product([]) == y;
      assert Product([x, y]) == x * Product([y]) == x * y;
      assert Product([y, x]) == y * Product([x]) == y * x;
    }
  }
  // ---- fuel ----

  /** Fuel only cuts evaluation short: an evaluation that finishes (with a
      value or a fault) finishes the same way with any larger allowance. */
  lemma {:induction false} EvalFuel(e: Node, env: nat, st: State, fuel: nat, more: nat)
    requires ValidState(st) && env < |st.store| && fuel <= more
    ensures Eval(e, env, st, fuel) != OutOfFuel ==> Eval(e, env, st, more) == Eval(e, env, st, fuel)
    decreases fuel, 0, 0
  {
    if fuel > 0 && e.List? {
      FormFuel(e.items, env, st, fuel - 1, more - 1);
    }
  }

  lemma {:induction false} FormFuel(items: seq<Node>, env: nat, st: State, fuel: nat, more: nat)
    requires ValidState(st) && env < |st.store| && fuel <= more
    ensures EvalForm(items, env, st, fuel) != OutOfFuel ==> EvalForm(items, env, st, more) == EvalForm(items, env, st, fuel)
    decreases fuel, 4, 0
  {
    var head := At(items, 0);
    if head == Atom("lambda") || head == Atom("quote") {
    } else if head == Atom("define") {
      DefineFuel(items, env, st, fuel, more);
    } else if head == Atom("if") {
      IfFuel(Tail(items, 0), env, st, fuel, more);
    } else if head == Atom("cond") {
      if CondToIf(Tail(items, 0)).Ok? {
        EvalFuel(CondToIf(Tail(items, 0)).value, env, st, fuel, more);
      }
    } else if head == Atom("begin") {
      SeqFuel(Tail(items, 0), env, st, fuel, more);
    } else {
      CallFuel(items, env, st, fuel, more);
    }
  }

  lemma {:induction false} DefineFuel(items: seq<Node>, env: nat, st: State, fuel: nat, more: nat)
    requires ValidState(st) && env < |st.store| && fuel <= more
    ensures EvalDefine(items, env, st, fuel) != OutOfFuel ==> EvalDefine(items, env, st, more) == EvalDefine(items, env, st, fuel)
    decreases fuel, 3, 0
  {
    if !At(items, 1).List? {
      EvalFuel(At(items, 2), env, st, fuel, more);
    }
  }

  lemma {:induction false} IfFuel(parts: seq<Node>, env: nat, st: State, fuel: nat, more: nat)
    requires ValidState(st) && env < |st.store| && fuel <= more
    ensures EvalIf(parts, env, st, fuel) != OutOfFuel ==> EvalIf(parts, env, st, more) == EvalIf(parts, env, st, fuel)
    decreases fuel, 3, 0
  {
    var q := Eval(At(parts, 0), env, st, fuel);
    EvalFuel(At(parts, 0), env, st, fuel, more);
    if q.Done? {
      EvalFuel(if IsTrue(q.value) then At(parts, 1) else At(parts, 2), env, q.state, fuel, more);
    }
  }

  lemma {:induction false} CallFuel(items: seq<Node>, env: nat, st: State, fuel: nat, more: nat)
    requires ValidState(st) && env < |st.store| && fuel <= more
    ensures EvalCall(items, env, st, fuel) != OutOfFuel ==> EvalCall(items, env, st, more) == EvalCall(items, env, st, fuel)
    decreases fuel, 3, 0
  {
    var q := Eval(At(items, 0), env, st, fuel);
    EvalFuel(At(items, 0), env, st, fuel, more);
    if q.Done? {
      var a := EvalArgs(Tail(items, 0), env, q.state, fuel);
      ArgsFuel(Tail(items, 0), env, q.state, fuel, more);
      if a.Done? {
        ApplyFuel(q.value, a.value, env, a.state, fuel, more);
      }
    }
  }

  lemma {:induction false} ArgsFuel(exprs: seq<Node>, env: nat, st: State, fuel: nat, more: nat)
    requires ValidState(st) && env < |st.store| && fuel <= more
    ensures EvalArgs(exprs, env, st, fuel) != OutOfFuel ==> EvalArgs(exprs, env, st, more) == EvalArgs(exprs, env, st, fuel)
    decreases fuel, 1, |exprs|
  {
    if exprs != [] {
      var q := Eval(exprs[0], env, st, fuel);
      EvalFuel(exprs[0], env, st, fuel, more);
      if q.Done? {
        ArgsFuel(exprs[1..], env, q.state, fuel, more);
      }
    }
  }

  lemma {:induction false} SeqFuel(exprs: seq<Node>, env: nat, st: State, fuel: nat, more: nat)
    requires ValidState(st) && env < |st.store| && fuel <= more
    ensures EvalSeq(exprs, env, st, fuel) != OutOfFuel ==> EvalSeq(exprs, env, st, more) == EvalSeq(exprs, env, st, fuel)
    decreases fuel, 1, |exprs|
  {
    if exprs != [] {
      var q := Eval(exprs[0], env, st, fuel);
      EvalFuel(exprs[0], env, st, fuel, more);
      if q.Done? && |exprs| > 1 {
        SeqFuel(exprs[1..], env, q.state, fuel, more);
      }
    }
  }

  lemma {:induction false} ApplyFuel(fun: Value, args: seq<Value>, env: nat, st: State, fuel: nat, more: nat)
    requires ValidState(st) && env < |st.store| && fuel <= more
    requires WfValue(fun, |st.store|) && WfValues(args, |st.store|)
    ensures Apply(fun, args, env, st, fuel) != OutOfFuel ==> Apply(fun, args, env, st, more) == Apply(fun, args, env, st, fuel)
    decreases fuel, 2, 0
  {
    if fun.Closure? && BindArgs(fun.params, args).Ok? {
      var (store', child) := Extend(st.store, fun.env, BindArgs(fun.params, args).value);
      SeqFuel(fun.body, child, State(store', st.nextId), fuel, more);
    }
  }

  // ---- a worked example ----

  /** The forms of the environment test in lisp.rb's own test program:
      `(define b 1) (define (a) b) (define (c b) (lambda () (a))) ((c 2))`. */
  function InheritProgram(): seq<Node> {
    [ List([Atom("define"), Atom("b"), Atom("1")]),
      List([Atom("define"), List([Atom("a")]), Atom("b")]),
      List([Atom("define"), List([Atom("c"), Atom("b")]), LambdaForm()]),
      List([List([Atom("c"), Atom("2")])]) ]
  }

  function LambdaForm(): Node {
    List([Atom("lambda"), List([]), List([Atom("a")])])
  }

  function ClosureA(): Value {
    Closure(0, List([]), [Atom("b")], 0)
  }

  function ClosureC(): Value {
    Closure(1, List([Atom("b")]), [LambdaForm()], 0)
  }

  /** Root bindings `t` once the three definitions have run. */
  function Defined(t: map<Value, Value>): map<Value, Value> {
    t[Text("b") := Text("1")][Text("a") := ClosureA()][Text("c") := ClosureC()]
  }

  /** The frame the call `(c 2)` creates. */
  function CallFrame(): Frame {
    Frame(map[Text("b") := Text("2")], 0)
  }

  /** The closure `(c 2)` returns. */
  function Inner(): Value {
    Closure(2, List([]), [List([Atom("a")])], 1)
  }

  /** One more top-level form: evaluated in the state the earlier ones left. */
  lemma EvalSeqCons(e: Node, rest: seq<Node>, env: nat, st: State, fuel: nat)
    requires ValidState(st) && env < |st.store| && rest != []
    requires Eval(e, env, st, fuel).Done?
    ensures EvalSeq([e] + rest, env, st, fuel) == EvalSeq(rest, env, Eval(e, env, st, fuel).state, fuel)
  {
    assert ([e] + rest)[0] == e && ([e] + rest)[1..] == rest;
  }

  /** `(define name literal)` at top level, for a literal the root does not bind. */
  lemma DefineLiteral(t: map<Value, Value>, name: string, lit: string, id: nat, fuel: nat)
    requires ValidState(State([Frame(t, 0)], id)) && Text(lit) !in t && fuel >= 2
    ensures Eval(List([Atom("define"), Atom(name), Atom(lit)]), 0, State([Frame(t, 0)], id), fuel)
              == Done(Text(lit), State([Frame(t[Text(name) := Text(lit)], 0)], id))
  {
    var st := State([Frame(t, 0)], id);
    var items := [Atom("define"), Atom(name), Atom(lit)];
    assert Eval(Atom(lit), 0, st, fuel - 1) == Done(Text(lit), st);
    assert Eval(List(items), 0, st, fuel) == EvalDefine(items, 0, st, fuel - 1);
  }

  /** `(define (name params...) body...)` at top level. */
  lemma DefineProcedure(t: map<Value, Value>, name: string, params: seq<Node>, body: seq<Node>, id: nat, fuel: nat)
    requires ValidState(State([Frame(t, 0)], id)) && fuel >= 1
    ensures var c := Closure(id, List(params), body, 0);
            Eval(List([Atom("define"), List([Atom(name)] + params)] + body), 0, State([Frame(t, 0)], id), fuel)
              == Done(c, State([Frame(t[Text(name) := c], 0)], id + 1))
  {
    var st := State([Frame(t, 0)], id);
    var c := Closure(id, List(params), body, 0);
    var items := [Atom("define"), List([Atom(name)] + params)] + body;
    assert At(items, 0) == Atom("define") && At(items, 1) == List([Atom(name)] + params);
    assert Tail(items, 1) == body;
    assert Tail([Atom(name)] + params, 0) == params;
    assert Define(st.store, 0, Text(name), c) == [Frame(t[Text(name) := c], 0)];
    assert Eval(List(items), 0, st, fuel) == EvalDefine(items, 0, st, fuel - 1);
  }

  /** The three definitions bind `b`, `a` and `c` in the root and use two ids. */
  lemma DefineSteps(t: map<Value, Value>, fuel: nat)
    requires ValidState(State([Frame(t, 0)], 0)) && Text("1") !in t && fuel >= 2
    ensures ValidState(State([Frame(Defined(t), 0)], 2))
    ensures EvalSeq(InheritProgram(), 0, State([Frame(t, 0)], 0), fuel)
              == EvalSeq(InheritProgram()[3..], 0, State([Frame(Defined(t), 0)], 2), fuel)
  {
    var prog := InheritProgram();
    var st0 := State([Frame(t, 0)], 0);
    var t1 := t[Text("b") := Text("1")];
    var t2 := t1[Text("a") := ClosureA()];
    DefineLiteral(t, "b", "1", 0, fuel);
    var st1 := State([Frame(t1, 0)], 0);
    EvalSeqCons(prog[0], prog[1..], 0, st0, fuel);
    assert prog[1] == List([Atom("define"), List([Atom("a")] + [])] + [Atom("b")]) by {
      assert [Atom("a")] + [] == [Atom("a")];
    }
    DefineProcedure(t1, "a", [], [Atom("b")], 0, fuel);
    var st2 := State([Frame(t2, 0)], 1);
    assert prog[1..] == [prog[1]] + prog[2..];
    EvalSeqCons(prog[1], prog[2..], 0, st1, fuel);
    assert prog[2] == List([Atom("define"), List([Atom("c")] + [Atom("b")])] + [LambdaForm()]) by {
      assert [Atom("c")] + [Atom("b")] == [Atom("c"), Atom("b")];
    }
    DefineProcedure(t2, "c", [Atom("b")], [LambdaForm()], 1, fuel);
    assert prog[2..] == [prog[2]] + prog[3..];
    EvalSeqCons(prog[2], prog[3..], 0, st2, fuel);
  }

  /** What the rest of the example reads from the root. */
  predicate ExampleRoot(root: map<Value, Value>) {
    && Text("a") in root && root[Text("a")] == ClosureA()
    && Text("b") in root && root[Text("b")] == Text("1")
    && Text("c") in root && root[Text("c")] == ClosureC()
    && Text("2") !in root
  }

  lemma DefinedReads(t: map<Value, Value>)
    requires Text("2") !in t
    ensures ExampleRoot(Defined(t))
  {
  }

  /** A store grown by one frame whose values capture existing frames is valid. */
  lemma ExtendValid(st: State, env: nat, b: map<Value, Value>, id: nat)
    requires ValidState(st) && env < |st.store|
    requires forall k :: k in b ==> WfValue(b[k], |st.store|)
    ensures ValidState(State(st.store + [Frame(b, env)], id))
  {
    var s := st.store + [Frame(b, env)];
    forall i, k | 0 <= i < |s| && k in s[i].bindings
      ensures WfValue(s[i].bindings[k], |s|)
    {
      if i < |st.store| {
        assert s[i] == st.store[i];
      }
    }
  }

  /** `(c 2)` binds `b` to "2" in a new child of the root and returns the
      closure `(lambda () (a))` that captured that child. */
  lemma CallC(root: map<Value, Value>, fuel: nat)
    requires ExampleRoot(root) && ValidState(State([Frame(root, 0)], 2)) && fuel >= 3
    ensures Eval(List([Atom("c"), Atom("2")]), 0, State([Frame(root, 0)], 2), fuel)
              == Done(Inner(), State([Frame(root, 0), CallFrame()], 3))
  {
    var st3 := State([Frame(root, 0)], 2);
    var call := [Atom("c"), Atom("2")];
    var s4 := [Frame(root, 0), CallFrame()];
    assert Eval(Atom("c"), 0, st3, fuel - 1) == Done(ClosureC(), st3);
    assert Eval(Atom("2"), 0, st3, fuel - 1) == Done(Text("2"), st3);
    assert EvalArgs([Atom("2")], 0, st3, fuel - 1) == Done([Text("2")], st3) by {
      assert [Atom("2")][1..] == [];
      assert [Text("2")] + [] == [Text("2")];
    }
    assert BindArgs(List([Atom("b")]), [Text("2")]) == Ok(CallFrame().bindings) by {
      assert ZipFlatten([Atom("b")], [Text("2")]) == [Text("b"), Text("2")];
    }
    assert st3.store + [CallFrame()] == s4;
    ExtendValid(st3, 0, CallFrame().bindings, 2);
    assert Apply(ClosureC(), [Text("2")], 0, st3, fuel - 1) == EvalSeq([LambdaForm()], 1, State(s4, 2), fuel - 1);
    assert Eval(LambdaForm(), 1, State(s4, 2), fuel - 1) == Done(Inner(), State(s4, 3));
    assert Eval(List(call), 0, st3, fuel) == EvalCall(call, 0, st3, fuel - 1);
  }

  /** `(a)` called from inside the closure `(c 2)` returned: `a`'s body runs in
      a fresh child of the root, where `b` is "1". */
  lemma CallA(root: map<Value, Value>, fuel: nat)
    requires ExampleRoot(root) && fuel >= 1
    requires ValidState(State([Frame(root, 0), CallFrame(), Frame(map[], 1)], 3))
    ensures var s6 := [Frame(root, 0), CallFrame(), Frame(map[], 1)];
            EvalCall([Atom("a")], 2, State(s6, 3), fuel)
              == Done(Text("1"), State(s6 + [Frame(map[], 0)], 3))
  {
    var s6 := [Frame(root, 0), CallFrame(), Frame(map[], 1)];
    var st6 := State(s6, 3);
    assert Text("a") !in CallFrame().bindings;
    assert Lookup(s6, 2, Text("a")) == ClosureA();
    assert Eval(Atom("a"), 2, st6, fuel) == Done(ClosureA(), st6);
    assert EvalArgs([], 2, st6, fuel) == Done([], st6);
    assert Tail([Atom("a")], 0) == [];
    var s7 := s6 + [Frame(map[], 0)];
    ExtendValid(st6, 0, map[], 3);
    assert BindArgs(List([]), []) == Ok(map[]);
    assert Apply(ClosureA(), [], 2, st6, fuel) == EvalSeq([Atom("b")], 3, State(s7, 3), fuel);
    assert Lookup(s7, 3, Text("b")) == Text("1");
    assert Eval(Atom("b"), 3, State(s7, 3), fuel) == Done(Text("1"), State(s7, 3));
    assert EvalSeq([Atom("b")], 3, State(s7, 3), fuel) == Done(Text("1"), State(s7, 3));
    assert EvalCall([Atom("a")], 2, st6, fuel) == Apply(ClosureA(), [], 2, st6, fuel);
  }

  /** Calling the closure `(c 2)` returned runs `(a)` in a grandchild of the
      root, and `a` answers "1". */
  lemma CallInner(root: map<Value, Value>, fuel: nat)
    requires ExampleRoot(root) && fuel >= 3
    requires ValidState(State([Frame(root, 0), CallFrame()], 3))
    ensures var r := Apply(Inner(), [], 0, State([Frame(root, 0), CallFrame()], 3), fuel);
            r.Done? && r.value == Text("1")
  {
    var st5 := State([Frame(root, 0), CallFrame()], 3);
    var s6 := st5.store + [Frame(map[], 1)];
    var st6 := State(s6, 3);
    assert BindArgs(List([]), []) == Ok(map[]);
    ExtendValid(st5, 1, map[], 3);
    assert Apply(Inner(), [], 0, st5, fuel) == EvalSeq([List([Atom("a")])], 2, st6, fuel);
    assert s6 == [Frame(root, 0), CallFrame(), Frame(map[], 1)];
    CallA(root, fuel - 1);
    assert Eval(List([Atom("a")]), 2, st6, fuel) == EvalCall([Atom("a")], 2, st6, fuel - 1);
  }

  /** The last form `((c 2))`: call `c`, then call what it returned. */
  lemma LastForm(root: map<Value, Value>, fuel: nat)
    requires ExampleRoot(root) && ValidState(State([Frame(root, 0)], 2)) && fuel >= 5
    ensures var r := EvalSeq(InheritProgram()[3..], 0, State([Frame(root, 0)], 2), fuel);
            r.Done? && r.value == Text("1")
  {
    var st3 := State([Frame(root, 0)], 2);
    var call := List([Atom("c"), Atom("2")]);
    CallC(root, fuel - 1);
    var st5 := State([Frame(root, 0), CallFrame()], 3);
    CallInner(root, fuel - 1);
    assert Tail([call], 0) == [];
    assert EvalArgs([], 0, st5, fuel - 1) == Done([], st5);
    assert Eval(InheritProgram()[3], 0, st3, fuel) == EvalCall([call], 0, st3, fuel - 1);
    assert InheritProgram()[3..] == [InheritProgram()[3]];
  }

  /** `a` reads the `b` of the scope it was defined in ("1"), not the `b` of
      the call of `c` that made the closure calling it ("2"). */
  lemma InheritLocalOverGlobal(fuel: nat)
    requires fuel >= 5
    ensures var r := EvalSeq(InheritProgram(), 0, InitialState(), fuel);
            r.Done? && r.value == Text("1")
  {
    assert Text("1") !in RootTable && Text("2") !in RootTable;
    DefineSteps(RootTable, fuel);
    DefinedReads(RootTable);
    LastForm(Defined(RootTable), fuel);
  }
}
