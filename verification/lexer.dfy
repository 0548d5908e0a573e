/**
 The tokenizer of lisp.rb: `string.gsub('(', ' ( ').gsub(')', ' ) ').split(' ')`.

 `Lex` is written exactly as that pipeline (two single-character `gsub`s and
 Ruby's awk-style whitespace split). `Scan` is an independent one-pass
 description of the same tokenizer — parentheses are standalone tokens,
 whitespace separates everything else — and `LexIsScan` proves the two agree,
 so the shape properties proved about `Scan` hold of `Lex`.
 */
module Lexer {
  import opened Syntax

  /** `String#gsub` with a one-character pattern and a literal replacement. */
  function Gsub(s: string, c: char, rep: string): (r: string)
    ensures c !in rep ==> c !in r
    ensures forall x :: x in r ==> x in s || x in rep
  {
    if s == [] then [] else (if s[0] == c then rep else [s[0]]) + Gsub(s[1..], c, rep)
  }

  /** The list holding the pending word, if there is one. */
  function Flush(word: string): seq<string> {
    if word == [] then [] else [word]
  }

  /** Ruby's `split(' ')`: runs of whitespace separate words, and leading or
      trailing whitespace produces no empty word. `word` is the word read so far. */
  function SplitFrom(s: string, word: string): seq<string>
    decreases |s|
  {
    if s == [] then Flush(word)
    else if IsSpace(s[0]) then Flush(word) + SplitFrom(s[1..], "")
    else SplitFrom(s[1..], word + [s[0]])
  }

  function Split(s: string): seq<string> {
    SplitFrom(s, "")
  }

  /** `Lexer#lex`. */
  function Lex(s: string): (r: seq<string>)
    ensures WellShaped(r)
    ensures Concat(r) == Unspaced(s)
  {
    LexIsScan(s);
    ScanShape(s, "");
    Split(Gsub(Gsub(s, '(', " ( "), ')', " ) "))
  }

  /** The input with every whitespace character removed. */
  function Unspaced(s: string): (r: string)
    ensures |r| <= |s|
  {
    if s == [] then [] else (if IsSpace(s[0]) then [] else [s[0]]) + Unspaced(s[1..])
  }

  function Concat(ts: seq<string>): string {
    if ts == [] then [] else ts[0] + Concat(ts[1..])
  }

  /** A token is non-empty and holds no whitespace. */
  predicate Token(t: string) {
    t != [] && forall i :: 0 <= i < |t| ==> !IsSpace(t[i])
  }

  /** A token holding a parenthesis is exactly that parenthesis. */
  predicate ParenAlone(t: string) {
    forall i :: 0 <= i < |t| && IsParen(t[i]) ==> t == [t[i]]
  }

  predicate WellShaped(ts: seq<string>) {
    forall j :: 0 <= j < |ts| ==> Token(ts[j]) && ParenAlone(ts[j])
  }

  /** A word under construction: no whitespace and no parenthesis. */
  predicate Plain(w: string) {
    forall i :: 0 <= i < |w| ==> !IsSpace(w[i]) && !IsParen(w[i])
  }

  /** The tokenizer described one character at a time. */
  function Scan(s: string, word: string): seq<string>
    decreases |s|
  {
    if s == [] then Flush(word)
    else if IsSpace(s[0]) then Flush(word) + Scan(s[1..], "")
    else if IsParen(s[0]) then Flush(word) + [[s[0]]] + Scan(s[1..], "")
    else Scan(s[1..], word + [s[0]])
  }

  /** Every scanned token is non-empty and free of whitespace, a token holding
      a parenthesis is that parenthesis alone, and the tokens spell out the
      input minus its whitespace. */
  lemma {:induction false} ScanShape(s: string, word: string)
    requires Plain(word)
    ensures WellShaped(Scan(s, word))
    ensures Concat(Scan(s, word)) == word + Unspaced(s)
    decreases |s|, 1
  {
    if s == [] {
      FlushShape(word);
    } else if IsSpace(s[0]) {
      ScanShapeSpace(s, word);
    } else if IsParen(s[0]) {
      ScanShapeParen(s, word);
    } else {
      ScanShapeWord(s, word);
    }
  }

  lemma {:induction false} ScanShapeSpace(s: string, word: string)
    requires Plain(word) && s != [] && IsSpace(s[0])
    ensures WellShaped(Scan(s, word))
    ensures Concat(Scan(s, word)) == word + Unspaced(s)
    decreases |s|, 0
  {
    FlushShape(word);
    var rest := Scan(s[1..], "");
    assert Scan(s, word) == Flush(word) + rest;
    ScanShape(s[1..], "");
    ConcatAppend(Flush(word), rest);
    WellShapedAppend(Flush(word), rest);
    assert Unspaced(s) == Unspaced(s[1..]);
  }

  lemma {:induction false} ScanShapeParen(s: string, word: string)
    requires Plain(word) && s != [] && IsParen(s[0]) && !IsSpace(s[0])
    ensures WellShaped(Scan(s, word))
    ensures Concat(Scan(s, word)) == word + Unspaced(s)
    decreases |s|, 0
  {
    FlushShape(word);
    ParenShape(s[0]);
    var rest := Scan(s[1..], "");
    assert Scan(s, word) == Flush(word) + [[s[0]]] + rest;
    ScanShape(s[1..], "");
    ConcatAppend(Flush(word) + [[s[0]]], rest);
    ConcatAppend(Flush(word), [[s[0]]]);
    WellShapedAppend(Flush(word), [[s[0]]]);
    WellShapedAppend(Flush(word) + [[s[0]]], rest);
    assert Unspaced(s) == [s[0]] + Unspaced(s[1..]);
  }

  lemma {:induction false} ScanShapeWord(s: string, word: string)
    requires Plain(word) && s != [] && !IsParen(s[0]) && !IsSpace(s[0])
    ensures WellShaped(Scan(s, word))
    ensures Concat(Scan(s, word)) == word + Unspaced(s)
    decreases |s|, 0
  {
    assert Plain(word + [s[0]]);
    assert Scan(s, word) == Scan(s[1..], word + [s[0]]);
    ScanShape(s[1..], word + [s[0]]);
    assert Unspaced(s) == [s[0]] + Unspaced(s[1..]);
    assert (word + [s[0]]) + Unspaced(s[1..]) == word + Unspaced(s);
  }

  lemma ParenShape(c: char)
    requires IsParen(c)
    ensures WellShaped([[c]])
    ensures Concat([[c]]) == [c]
  {
    assert Concat([[c]]) == [c] + Concat([]);
  }

  lemma WellShapedAppend(a: seq<string>, b: seq<string>)
    requires WellShaped(a) && WellShaped(b)
    ensures WellShaped(a + b)
  {
    forall j | 0 <= j < |a + b|
      ensures Token((a + b)[j]) && ParenAlone((a + b)[j])
    {
      if j < |a| {
        assert (a + b)[j] == a[j];
      } else {
        assert (a + b)[j] == b[j - |a|];
      }
    }
  }

  lemma FlushShape(word: string)
    requires Plain(word)
    ensures WellShaped(Flush(word))
    ensures Concat(Flush(word)) == word
  {
    if word != [] {
      assert Concat([word]) == word + Concat([]);
    }
  }

  lemma {:induction false} ConcatAppend(a: seq<string>, b: seq<string>)
    ensures Concat(a + b) == Concat(a) + Concat(b)
    decreases |a|
  {
    if a == [] {
      assert a + b == b;
    } else {
      assert (a + b)[1..] == a[1..] + b;
      ConcatAppend(a[1..], b);
    }
  }

  /** The two `gsub` calls replace each parenthesis by itself between spaces. */
  function Pad(s: string): string {
    if s == [] then [] else PadChar(s[0]) + Pad(s[1..])
  }

  function PadChar(c: char): string {
    if c == '(' then " ( " else if c == ')' then " ) " else [c]
  }

  lemma {:induction false} GsubAppend(a: string, b: string, c: char, rep: string)
    ensures Gsub(a + b, c, rep) == Gsub(a, c, rep) + Gsub(b, c, rep)
    decreases |a|
  {
    if a == [] {
      assert a + b == b;
    } else {
      assert (a + b)[0] == a[0];
      assert (a + b)[1..] == a[1..] + b;
      GsubAppend(a[1..], b, c, rep);
    }
  }

  lemma {:induction false} GsubTwiceIsPad(s: string)
    ensures Gsub(Gsub(s, '(', " ( "), ')', " ) ") == Pad(s)
    decreases |s|
  {
    if s != [] {
      var first := if s[0] == '(' then " ( " else [s[0]];
      assert Gsub(s, '(', " ( ") == first + Gsub(s[1..], '(', " ( ");
      GsubAppend(first, Gsub(s[1..], '(', " ( "), ')', " ) ");
      GsubTwiceIsPad(s[1..]);
      if s[0] == '(' {
        assert Gsub(" ( ", ')', " ) ") == " ( " by {
          assert " ( "[1..] == "( ";
          assert "( "[1..] == " ";
          assert " "[1..] == "";
        }
      } else {
        assert Gsub([s[0]], ')', " ) ") == PadChar(s[0]) by {
          assert [s[0]][1..] == [];
        }
      }
    }
  }

  /** Unfolding `SplitFrom` over a known first character. */
  lemma SplitCons(c: char, s: string, word: string)
    ensures SplitFrom([c] + s, word)
         == if IsSpace(c) then Flush(word) + SplitFrom(s, "") else SplitFrom(s, word + [c])
  {
    assert ([c] + s)[0] == c;
    assert ([c] + s)[1..] == s;
  }

  /** A padded parenthesis ends the pending word and is a token of its own. */
  lemma SplitPaddedParen(c: char, t: string, word: string)
    requires IsParen(c)
    ensures SplitFrom([' ', c, ' '] + t, word) == Flush(word) + [[c]] + SplitFrom(t, "")
  {
    var a := SplitFrom([' ', c, ' '] + t, word);
    SplitCons(' ', [c, ' '] + t, word);
    assert [' ', c, ' '] + t == [' '] + ([c, ' '] + t);
    assert a == Flush(word) + SplitFrom([c, ' '] + t, "");
    SplitCons(c, [' '] + t, "");
    assert [c, ' '] + t == [c] + ([' '] + t);
    assert "" + [c] == [c];
    assert SplitFrom([c, ' '] + t, "") == SplitFrom([' '] + t, [c]);
    SplitCons(' ', t, [c]);
    assert SplitFrom([' '] + t, [c]) == [[c]] + SplitFrom(t, "");
  }

  lemma {:induction false} SplitPadIsScan(s: string, word: string)
    requires Plain(word)
    ensures SplitFrom(Pad(s), word) == Scan(s, word)
    decreases |s|
  {
    if s == [] {
    } else {
      var c := s[0];
      if c == '(' || c == ')' {
        assert Pad(s) == [' ', c, ' '] + Pad(s[1..]);
        SplitPaddedParen(c, Pad(s[1..]), word);
        SplitPadIsScan(s[1..], "");
      } else {
        assert Pad(s) == [c] + Pad(s[1..]);
        SplitCons(c, Pad(s[1..]), word);
        if IsSpace(c) {
          SplitPadIsScan(s[1..], "");
        } else {
          SplitPadIsScan(s[1..], word + [c]);
        }
      }
    }
  }

  /** The Ruby pipeline and the one-pass scanner produce the same tokens. */
  lemma LexIsScan(s: string)
    ensures Split(Gsub(Gsub(s, '(', " ( "), ')', " ) ")) == Scan(s, "")
  {
    GsubTwiceIsPad(s);
    SplitPadIsScan(s, "");
  }
}
