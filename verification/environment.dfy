/**
 The scopes of lisp.rb (`Environment` and `RootEnvironment`) as an explicit
 store. Ruby environments are mutable objects that closures hold references
 to; here they are frames in a sequence, referred to by index, and a closure
 holds the index of the frame it captured. Frame 0 is the root. Every other
 frame's parent was created before it, so following parents always reaches
 the root.

 The root's bindings hold the builtin table and also every `define` a program
 performs at top level: `RootEnvironment` inherits `define` and writes into
 the same hash.
 */
module Environment {
  import opened Values

  datatype Frame = Frame(bindings: map<Value, Value>, parent: nat)

  type Store = seq<Frame>

  predicate ValidStore(s: Store) {
    |s| > 0 && forall i :: 0 < i < |s| ==> s[i].parent < i
  }

  /** `@bindings[name]` is present and not `nil`/`false`, so `||` takes it. */
  predicate BoundIn(f: Frame, key: Value) {
    key in f.bindings && Truthy(f.bindings[key])
  }

  /** `lookup(name)`: the local binding if it is truthy, otherwise the parent's
      answer; the root answers with the name itself when it has nothing. */
  function Lookup(s: Store, env: nat, key: Value): (r: Value)
    requires ValidStore(s) && env < |s|
    ensures Truthy(r) || r == key
    decreases env
  {
    if BoundIn(s[env], key) then s[env].bindings[key]
    else if env == 0 then key
    else Lookup(s, s[env].parent, key)
  }

  /** What `lookup` answers is the name itself or the truthy binding of the
      name in some frame on the parent chain. */
  lemma {:induction false} LookupFromChain(s: Store, env: nat, key: Value)
    requires ValidStore(s) && env < |s|
    ensures Lookup(s, env, key) == key ||
            exists i :: i in Ancestors(s, env) && BoundIn(s[i], key) && Lookup(s, env, key) == s[i].bindings[key]
    decreases env
  {
    if !BoundIn(s[env], key) && env != 0 {
      var p := s[env].parent;
      LookupFromChain(s, p, key);
      assert Ancestors(s, env) == [env] + Ancestors(s, p);
    }
  }

  /** `define(name, value)`: rebinds `key` in frame `env` only. */
  function Define(s: Store, env: nat, key: Value, v: Value): (s': Store)
    requires env < |s|
    ensures |s'| == |s|
    ensures key in s'[env].bindings && s'[env].bindings[key] == v
    ensures forall k :: k != key ==> (k in s'[env].bindings <==> k in s[env].bindings)
    ensures forall k :: k != key && k in s[env].bindings ==> s'[env].bindings[k] == s[env].bindings[k]
    ensures s'[env].parent == s[env].parent
    ensures forall i :: 0 <= i < |s| && i != env ==> s'[i] == s[i]
    ensures ValidStore(s) ==> ValidStore(s')
  {
    s[env := s[env].(bindings := s[env].bindings[key := v])]
  }

  /** `extend(bindings)`: a new frame, child of `env`, holding `bindings`;
      every existing frame, the receiver included, is left as it was. */
  function Extend(s: Store, env: nat, bindings: map<Value, Value>): (r: (Store, nat))
    requires env < |s|
    ensures r.1 == |s| && |r.0| == |s| + 1
    ensures r.0[..|s|] == s
    ensures r.0[r.1].parent == env && r.0[r.1].bindings == bindings
    ensures ValidStore(s) ==> ValidStore(r.0)
  {
    (s + [Frame(bindings, env)], |s|)
  }

  /** The frames `lookup` visits from `env`: `env`, its parent, ..., the root. */
  function Ancestors(s: Store, env: nat): (ch: seq<nat>)
    requires ValidStore(s) && env < |s|
    ensures |ch| > 0 && ch[0] == env && ch[|ch| - 1] == 0
    ensures forall k :: 0 <= k < |ch| ==> ch[k] <= env
    ensures forall k :: 0 < k < |ch| ==> ch[k] < ch[k - 1]
    ensures forall k :: 0 < k < |ch| ==> ch[k] == s[ch[k - 1]].parent
    decreases env
  {
    if env == 0 then [0] else [env] + Ancestors(s, s[env].parent)
  }

  /** `lookup` answers from the nearest frame on the parent chain that binds
      the name to something other than `nil`/`false`. */
  lemma LookupIsNearest(s: Store, env: nat, key: Value)
    requires ValidStore(s) && env < |s|
    ensures forall k :: 0 <= k < |Ancestors(s, env)| && BoundIn(s[Ancestors(s, env)[k]], key) &&
                        (forall j :: 0 <= j < k ==> !BoundIn(s[Ancestors(s, env)[j]], key))
                        ==> Lookup(s, env, key) == s[Ancestors(s, env)[k]].bindings[key]
  {
    var ch := Ancestors(s, env);
    forall k | 0 <= k < |ch| && BoundIn(s[ch[k]], key) && (forall j :: 0 <= j < k ==> !BoundIn(s[ch[j]], key))
      ensures Lookup(s, env, key) == s[ch[k]].bindings[key]
    {
      LookupAt(s, env, key, k);
    }
  }

  /** The `k`-th frame on the chain answers when it is the first to bind. */
  lemma {:induction false} LookupAt(s: Store, env: nat, key: Value, k: nat)
    requires ValidStore(s) && env < |s|
    requires k < |Ancestors(s, env)| && BoundIn(s[Ancestors(s, env)[k]], key)
    requires forall j :: 0 <= j < k ==> !BoundIn(s[Ancestors(s, env)[j]], key)
    ensures Lookup(s, env, key) == s[Ancestors(s, env)[k]].bindings[key]
    decreases env
  {
    var ch := Ancestors(s, env);
    if k > 0 {
      assert !BoundIn(s[ch[0]], key);
      assert env != 0;
      var p := s[env].parent;
      var up := Ancestors(s, p);
      assert ch == [env] + up;
      forall j | 0 <= j < k - 1
        ensures !BoundIn(s[up[j]], key)
      {
        assert up[j] == ch[j + 1];
      }
      assert up[k - 1] == ch[k];
      LookupAt(s, p, key, k - 1);
    }
  }

  /** When no frame on the chain binds the name to something truthy, the
      root answers with the name itself. */
  lemma {:induction false} LookupFallsBackToName(s: Store, env: nat, key: Value)
    requires ValidStore(s) && env < |s|
    requires forall k :: 0 <= k < |Ancestors(s, env)| ==> !BoundIn(s[Ancestors(s, env)[k]], key)
    ensures Lookup(s, env, key) == key
    decreases env
  {
    var ch := Ancestors(s, env);
    assert ch[0] == env && !BoundIn(s[env], key);
    if env != 0 {
      var p := s[env].parent;
      var up := Ancestors(s, p);
      assert ch == [env] + up;
      forall j | 0 <= j < |up|
        ensures !BoundIn(s[up[j]], key)
      {
        assert up[j] == ch[j + 1];
      }
      LookupFallsBackToName(s, p, key);
    }
  }

  /** A truthy `define` in frame `e` is seen by every scope whose parent chain
      reaches `e` before any other frame binding that name — in particular by
      closures created earlier that captured `e`, which is what lets a
      function defined with `define` call itself. */
  lemma {:induction false} DefineIsVisible(s: Store, e: nat, key: Value, v: Value, env: nat)
    requires ValidStore(s) && e < |s| && env < |s| && Truthy(v)
    requires e in Ancestors(s, env)
    requires forall j :: 0 <= j < |Ancestors(s, env)| && Ancestors(s, env)[j] > e ==>
               !BoundIn(s[Ancestors(s, env)[j]], key)
    ensures Lookup(Define(s, e, key, v), env, key) == v
    decreases env
  {
    var s' := Define(s, e, key, v);
    if env != e {
      assert env != 0;
      assert !BoundIn(s[env], key);
      var p := s[env].parent;
      assert Ancestors(s, env) == [env] + Ancestors(s, p);
      forall j | 0 <= j < |Ancestors(s, p)| && Ancestors(s, p)[j] > e
        ensures !BoundIn(s[Ancestors(s, p)[j]], key)
      {
        assert Ancestors(s, env)[j + 1] == Ancestors(s, p)[j];
      }
      DefineIsVisible(s, e, key, v, p);
    }
  }

  /** A `define` in frame `e` changes nothing for scopes whose parent chain
      does not pass through `e`. */
  lemma {:induction false} DefineIsLocal(s: Store, e: nat, key: Value, v: Value, env: nat, name: Value)
    requires ValidStore(s) && e < |s| && env < |s|
    requires e !in Ancestors(s, env)
    ensures Lookup(Define(s, e, key, v), env, name) == Lookup(s, env, name)
    decreases env
  {
    if env != 0 {
      var p := s[env].parent;
      assert Ancestors(s, env) == [env] + Ancestors(s, p);
      DefineIsLocal(s, e, key, v, p, name);
    }
  }

  /** The child `extend` creates answers from its own bindings first and then
      exactly as its parent does; lookups from the older frames are unchanged. */
  lemma {:induction false} ExtendLookup(s: Store, env: nat, bindings: map<Value, Value>, key: Value, other: nat)
    requires ValidStore(s) && env < |s| && other < |s|
    ensures var (s', child) := Extend(s, env, bindings);
            Lookup(s', child, key)
              == if key in bindings && Truthy(bindings[key]) then bindings[key] else Lookup(s, env, key)
    ensures Lookup(Extend(s, env, bindings).0, other, key) == Lookup(s, other, key)
  {
    var s' := Extend(s, env, bindings).0;
    LookupOlder(s, s', env, key);
    LookupOlder(s, s', other, key);
  }

  lemma {:induction false} LookupOlder(s: Store, s': Store, env: nat, key: Value)
    requires ValidStore(s) && ValidStore(s') && env < |s| <= |s'| && s'[..|s|] == s
    ensures Lookup(s', env, key) == Lookup(s, env, key)
    decreases env
  {
    assert s'[env] == s[env];
    if env != 0 {
      LookupOlder(s, s', s[env].parent, key);
    }
  }
}
