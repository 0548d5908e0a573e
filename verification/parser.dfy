/**
 The recursive-descent parser of lisp.rb (`Parser#parse` and `_parse`).

 `ParseFrom(tokens, acc)` is `_parse(tokens, list)`: it appends to the list
 under construction until a `)` (which closes it and hands back the tokens
 after it) or the end of the input (which closes it silently). It never fails.
 */
module Parser {
  import opened Syntax

  /** `_parse(tokens, list)`: the finished list and the unconsumed tokens. */
  function ParseFrom(tokens: seq<string>, acc: seq<Node>): (r: (seq<Node>, seq<string>))
    ensures |r.1| <= |tokens|
    ensures acc <= r.0
    ensures AllSyntactic(acc) ==> AllSyntactic(r.0)
    decreases |tokens|
  {
    if tokens == [] then (acc, [])
    else if tokens[0] == "(" then
      var (inner, rest) := ParseFrom(Tail(tokens, 0), []);
      ParseFrom(rest, acc + [List(inner)])
    else if tokens[0] == ")" then (acc, Tail(tokens, 0))
    else ParseFrom(Tail(tokens, 0), acc + [Atom(tokens[0])])
  }

  predicate AllSyntactic(ns: seq<Node>) {
    forall i :: 0 <= i < |ns| ==> Syntactic(ns[i])
  }

  /** `Parser#parse`: the top-level list of every form read. */
  function Parse(tokens: seq<string>): (r: Node)
    ensures r.List? && Syntactic(r)
  {
    List(ParseFrom(tokens, []).0)
  }

  /** What `_parse` hands back is always a suffix of what it was given: the
      parser only ever moves forward through the tokens. */
  lemma {:induction false} RestIsSuffix(tokens: seq<string>, acc: seq<Node>)
    ensures var rest := ParseFrom(tokens, acc).1;
            rest == tokens[|tokens| - |rest|..]
    decreases |tokens|
  {
    if tokens != [] {
      if tokens[0] == "(" {
        RestIsSuffix(Tail(tokens, 0), []);
        var (inner, rest) := ParseFrom(Tail(tokens, 0), []);
        RestIsSuffix(rest, acc + [List(inner)]);
      } else if tokens[0] != ")" {
        RestIsSuffix(Tail(tokens, 0), acc + [Atom(tokens[0])]);
      }
    }
  }

  /** An extra `)` at the end of the input never changes the tree: whatever
      lists are still open at the end are closed exactly as if the missing
      closing parentheses had been written. */
  lemma CloseAtEndIsImplicit(tokens: seq<string>)
    ensures Parse(tokens + [")"]) == Parse(tokens)
  {
    ExtraCloser(tokens, []);
  }

  lemma {:induction false} ExtraCloser(tokens: seq<string>, acc: seq<Node>)
    ensures ParseFrom(tokens + [")"], acc).0 == ParseFrom(tokens, acc).0
    ensures var rest := ParseFrom(tokens, acc).1;
            var rest' := ParseFrom(tokens + [")"], acc).1;
            (rest' == [] && rest == []) || rest' == rest + [")"]
    decreases |tokens|
  {
    var ts := tokens + [")"];
    if tokens == [] {
      assert ts == [")"];
    } else {
      assert ts[0] == tokens[0];
      assert Tail(ts, 0) == Tail(tokens, 0) + [")"];
      if tokens[0] == "(" {
        ExtraCloser(Tail(tokens, 0), []);
        var (inner, rest) := ParseFrom(Tail(tokens, 0), []);
        var (inner', rest') := ParseFrom(Tail(tokens, 0) + [")"], []);
        assert inner' == inner;
        if rest' != [] || rest != [] {
          ExtraCloser(rest, acc + [List(inner)]);
        }
      } else if tokens[0] == ")" {
      } else {
        ExtraCloser(Tail(tokens, 0), acc + [Atom(tokens[0])]);
      }
    }
  }
}
