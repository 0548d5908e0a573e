/**
 Rendering, lexing and parsing fit together: the text `ast_to_string` writes
 for a printable node lexes into that node's tokens, and those tokens parse
 back into the node. The same token lemmas pin down the parser's handling of
 an unclosed `(` and of an unmatched top-level `)`.
 */
module RoundTrip {
  import opened Syntax
  import opened Values
  import opened Lexer
  import opened Parser
  import opened Render

  /** The tokens a printable node is written as. */
  function Tokens(n: Node): seq<string>
    decreases n, 1
  {
    match n
    case Atom(s) => [s]
    case List(items) => ["("] + ItemTokens(items) + [")"]
    case NilNode => []
    case FalseNode => []
  }

  function ItemTokens(items: seq<Node>): seq<string>
    decreases items, 0
  {
    if items == [] then [] else Tokens(items[0]) + ItemTokens(items[1..])
  }

  predicate AllPrintable(items: seq<Node>) {
    forall i :: 0 <= i < |items| ==> Printable(items[i])
  }

  /** A text that starts at a token boundary. */
  predicate Separated(r: string) {
    r == [] || IsSpace(r[0]) || IsParen(r[0])
  }

  lemma ScanCons(c: char, s: string, word: string)
    requires Plain(word)
    ensures Scan([c] + s, word)
         == if IsSpace(c) then Flush(word) + Scan(s, "")
            else if IsParen(c) then Flush(word) + [[c]] + Scan(s, "")
            else Scan(s, word + [c])
  {
    assert ([c] + s)[0] == c;
    assert ([c] + s)[1..] == s;
  }

  lemma {:induction false} ScanWord(s: string, r: string, word: string)
    requires Plain(word) && Plain(s)
    ensures Plain(word + s)
    ensures Scan(s + r, word) == Scan(r, word + s)
    decreases |s|
  {
    if s == [] {
      assert s + r == r;
      assert word + s == word;
    } else {
      assert s + r == [s[0]] + (s[1..] + r);
      ScanCons(s[0], s[1..] + r, word);
      ScanWord(s[1..], r, word + [s[0]]);
      assert word + [s[0]] + s[1..] == word + s;
    }
  }

  lemma ScanFlushAt(r: string, word: string)
    requires Plain(word) && word != [] && Separated(r)
    ensures Scan(r, word) == [word] + Scan(r, "")
  {
    if r != [] {
      assert r == [r[0]] + r[1..];
      ScanCons(r[0], r[1..], word);
      ScanCons(r[0], r[1..], "");
    }
  }

  /** A printable node's text, followed by a token boundary, scans into the
      node's tokens. */
  lemma {:induction false} ScanNode(n: Node, r: string)
    requires Printable(n) && Separated(r)
    ensures RenderNode(n).Ok?
    ensures Scan(RenderNode(n).value + r, "") == Tokens(n) + Scan(r, "")
    decreases n, 2
  {
    match n
    case Atom(s) =>
      assert Plain(s);
      ScanWord(s, r, "");
      assert "" + s == s;
      ScanFlushAt(r, s);
    case List(items) =>
      assert AllPrintable(items);
      var inner := RenderItems(items).value;
      ScanItems(items, ")" + r);
      assert RenderNode(n).value == "(" + inner + ")";
      ScanParens(inner, r, ItemTokens(items));
  }

  /** Parentheses around text that scans into `t` add the two paren tokens. */
  lemma ScanParens(inner: string, r: string, t: seq<string>)
    requires Scan(inner + ([')'] + r), "") == t + Scan([')'] + r, "")
    ensures Scan("(" + inner + ")" + r, "") == ["("] + t + [")"] + Scan(r, "")
  {
    assert "(" + inner + ")" + r == ['('] + (inner + ([')'] + r));
    ScanCons('(', inner + ([')'] + r), "");
    ScanCons(')', r, "");
    assert Flush("") == [];
  }

  lemma {:induction false} ScanItems(items: seq<Node>, r: string)
    requires AllPrintable(items) && Separated(r)
    ensures RenderItems(items).Ok?
    ensures Scan(RenderItems(items).value + r, "") == ItemTokens(items) + Scan(r, "")
    decreases items, 1
  {
    if items == [] {
      assert "" + r == r;
    } else if |items| == 1 {
      ScanNode(items[0], r);
      assert ItemTokens(items[1..]) == [];
    } else {
      ScanItemsJoined(items, r);
    }
  }

  /** Two or more items: the first, a space, and the rest. */
  lemma {:induction false} ScanItemsJoined(items: seq<Node>, r: string)
    requires |items| > 1 && AllPrintable(items) && Separated(r)
    ensures RenderItems(items).Ok?
    ensures Scan(RenderItems(items).value + r, "") == ItemTokens(items) + Scan(r, "")
    decreases items, 0
  {
    var first := RenderNode(items[0]).value;
    var rest := RenderItems(items[1..]).value;
    var t1 := Tokens(items[0]);
    var t2 := ItemTokens(items[1..]);
    var tail := rest + r;
    var sp := " " + rest + r;
    assert AllPrintable(items[1..]);
    ScanItems(items[1..], r);
    assert Scan(sp, "") == t2 + Scan(r, "") by {
      assert sp == [' '] + tail;
      ScanAfterSpace(tail);
    }
    ScanNode(items[0], sp);
    assert RenderItems(items).value + r == first + sp by {
      assert RenderItems(items) == Ok(first + " " + rest);
    }
    assert ItemTokens(items) == t1 + t2;
    ConcatAssoc(t1, t2, Scan(r, ""));
  }

  /** A space before a text only ends a word, and there is none yet. */
  lemma ScanAfterSpace(tail: string)
    ensures Scan([' '] + tail, "") == Scan(tail, "")
  {
    ScanCons(' ', tail, "");
    assert Flush("") == [];
  }

  lemma ConcatAssoc<T>(a: seq<T>, b: seq<T>, c: seq<T>)
    ensures a + (b + c) == a + b + c
  {
  }

  /** The tokens of a printable node, followed by anything, parse into the node. */
  lemma {:induction false} ParseNode(n: Node, w: seq<string>, acc: seq<Node>)
    requires Printable(n)
    ensures ParseFrom(Tokens(n) + w, acc) == ParseFrom(w, acc + [n])
    decreases n, 1
  {
    match n
    case Atom(s) =>
      var ts := [s] + w;
      assert ts[0] == s && Tail(ts, 0) == w;
      assert !IsParen(s[0]);
    case List(items) =>
      assert AllPrintable(items);
      var ts := ["("] + ItemTokens(items) + [")"] + w;
      assert ts == Tokens(n) + w;
      assert Tail(ts, 0) == ItemTokens(items) + ([")"] + w);
      ParseItems(items, [")"] + w, []);
      assert [] + items == items;
      assert Tail([")"] + w, 0) == w;
  }

  lemma {:induction false} ParseItems(items: seq<Node>, w: seq<string>, acc: seq<Node>)
    requires AllPrintable(items)
    ensures ParseFrom(ItemTokens(items) + w, acc) == ParseFrom(w, acc + items)
    decreases items, 0
  {
    if items == [] {
      assert ItemTokens(items) + w == w;
      assert acc + items == acc;
    } else {
      ItemTokensSplit(items, w);
      ParseNode(items[0], ItemTokens(items[1..]) + w, acc);
      assert AllPrintable(items[1..]);
      ParseItems(items[1..], w, acc + [items[0]]);
      AppendFirst(acc, items);
    }
  }

  lemma ItemTokensSplit(items: seq<Node>, w: seq<string>)
    requires items != []
    ensures ItemTokens(items) + w == Tokens(items[0]) + (ItemTokens(items[1..]) + w)
  {
    assert ItemTokens(items) == Tokens(items[0]) + ItemTokens(items[1..]);
  }

  lemma AppendFirst<T>(acc: seq<T>, items: seq<T>)
    requires items != []
    ensures acc + [items[0]] + items[1..] == acc + items
  {
    assert [items[0]] + items[1..] == items;
  }

  /** Render, lex and parse a printable node: the result is the top-level list
      holding exactly that node. */
  lemma RenderLexParse(n: Node)
    requires Printable(n)
    ensures RenderNode(n).Ok?
    ensures Parse(Lex(RenderNode(n).value)) == List([n])
  {
    var t := RenderNode(n).value;
    ScanNode(n, "");
    assert t + "" == t;
    LexIsScan(t);
    assert Scan("", "") == [];
    ParseNode(n, [], []);
    assert Tokens(n) + [] == Tokens(n);
  }

  /** What `format` writes for a quoted printable list reads back, through
      `REPL.run`'s lexer and parser, as that list. */
  lemma FormatQuotedReadsBack(items: seq<Node>)
    requires Printable(List(items))
    ensures FormatAll([Quoted(items)]).Ok?
    ensures Parse(Lex(FormatAll([Quoted(items)]).value)) == List([List(items)])
  {
    FormatSingle(Quoted(items));
    RenderLexParse(List(items));
  }

  /** An unmatched `)` at top level ends the program: the tokens after it are
      dropped without a trace. */
  lemma UnmatchedCloseDropsRest(items: seq<Node>, rest: seq<string>)
    requires AllPrintable(items)
    ensures Parse(ItemTokens(items) + [")"] + rest) == List(items)
  {
    ParseItems(items, [")"] + rest, []);
    assert ItemTokens(items) + [")"] + rest == ItemTokens(items) + ([")"] + rest);
    assert Tail([")"] + rest, 0) == rest;
    assert [] + items == items;
  }

  /** A `(` left open at the end of the input is closed there. */
  lemma UnclosedOpenIsClosed(items: seq<Node>)
    requires AllPrintable(items)
    ensures Parse(["("] + ItemTokens(items)) == List([List(items)])
  {
    var ts := ["("] + ItemTokens(items);
    assert ts[0] == "(";
    assert Tail(ts, 0) == ItemTokens(items) + [];
    ParseItems(items, [], []);
    assert [] + items == items;
    assert ParseFrom(Tail(ts, 0), []) == (items, []);
    assert ParseFrom(ts, []) == ParseFrom([], [] + [List(items)]);
  }
  /** The parameter list `Lambda#to_s` writes: `join(',')` makes one word of
      all the parameter names. */
  function JoinedParams(ps: seq<Node>): seq<Node> {
    if ps == [] then [] else [Atom(JoinParams(ps))]
  }

  predicate PrintableAtoms(ps: seq<Node>) {
    forall i :: 0 <= i < |ps| ==> ps[i].Atom? && Printable(ps[i])
  }

  lemma {:induction false} JoinParamsPrintable(ps: seq<Node>)
    requires ps != [] && PrintableAtoms(ps)
    ensures Printable(Atom(JoinParams(ps)))
    decreases ps
  {
    if |ps| > 1 {
      JoinParamsPrintable(ps[1..]);
      var a := ps[0].name;
      var r := JoinParams(ps[1..]);
      var t := a + "," + r;
      assert JoinParams(ps) == t;
      forall i | 0 <= i < |t|
        ensures !IsSpace(t[i]) && !IsParen(t[i])
      {
        if i < |a| {
          assert t[i] == a[i];
        } else if i > |a| {
          assert t[i] == r[i - |a| - 1];
        }
      }
    }
  }

  /** `Lambda#to_s` on a closure whose parameters are printable atoms reads
      back as `(lambda (<params>) (<body>))`: the body returns wrapped in one
      more list than the `lambda` form it came from, and several parameters
      return as a single atom holding their names separated by commas. */
  lemma ClosureTextReadsBack(ps: seq<Node>, body: seq<Node>)
    requires PrintableAtoms(ps) && AllPrintable(body)
    ensures ClosureText(List(ps), body).Ok?
    ensures Parse(Lex(ClosureText(List(ps), body).value)) ==
              List([List([Atom("lambda"), List(JoinedParams(ps)), List(body)])])
  {
    var params := List(JoinedParams(ps));
    var n := List([Atom("lambda"), params, List(body)]);
    if ps != [] {
      JoinParamsPrintable(ps);
    }
    assert Printable(n);
    RenderLexParse(n);
    var b := RenderNode(List(body)).value;
    var j := RenderNode(params).value;
    assert j == "(" + JoinParams(ps) + ")" by {
      if ps != [] {
        assert RenderItems(JoinedParams(ps)) == Ok(JoinParams(ps));
      }
    }
    var items := [Atom("lambda"), params, List(body)];
    assert items[1..] == [params, List(body)];
    assert items[1..][1..] == [List(body)];
    assert RenderItems([List(body)]) == Ok(b);
    assert RenderItems(items[1..]) == Ok(j + " " + b);
    assert RenderItems(items) == Ok("lambda" + " " + (j + " " + b));
    assert ClosureText(List(ps), body).value == "(lambda (" + JoinParams(ps) + ") " + b + ")";
    assert RenderNode(n).value == "(" + ("lambda" + " " + (j + " " + b)) + ")";
    LambdaLayout(JoinParams(ps), b);
  }

  lemma LambdaLayout(p: string, b: string)
    ensures "(lambda (" + p + ") " + b + ")" == "(" + ("lambda" + " " + ("(" + p + ")" + " " + b)) + ")"
  {
    var x := "(" + p + ")" + " " + b;
    assert "lambda" + " " + x == "lambda (" + p + ") " + b;
    assert "(" + ("lambda (" + p + ") " + b) + ")" == "(lambda (" + p + ") " + b + ")";
  }
}
