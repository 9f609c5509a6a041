/**
 * Whitespace handling for column names: `str.strip()` followed by
 * replacing every `\s+` run with a single space.
 */
module Text {
  import Tokens

  /** Python's whitespace class (`str.isspace`, and `\s` on str patterns). */
  predicate IsSpace(c: char) {
    || c == ' '
    || ('\t' <= c <= '\r')
    || ('\U{1C}' <= c <= '\U{1F}')
    || c == '\U{85}' || c == '\U{A0}' || c == '\U{1680}'
    || ('\U{2000}' <= c <= '\U{200A}')
    || c == '\U{2028}' || c == '\U{2029}' || c == '\U{202F}' || c == '\U{205F}' || c == '\U{3000}'
  }

  /** `s.lstrip()`: drop the leading whitespace. */
  function TrimLeft(s: string): (r: string)
    ensures |r| <= |s| && r == s[|s| - |r|..]
    ensures forall i :: 0 <= i < |s| - |r| ==> IsSpace(s[i])
    ensures r == [] || !IsSpace(r[0])
  {
    if s != [] && IsSpace(s[0]) then TrimLeft(s[1..]) else s
  }

  /** `s.rstrip()`: drop the trailing whitespace. */
  function TrimRight(s: string): (r: string)
    ensures |r| <= |s| && r == s[..|r|]
    ensures forall i :: |r| <= i < |s| ==> IsSpace(s[i])
    ensures r == [] || !IsSpace(r[|r| - 1])
  {
    if s != [] && IsSpace(s[|s| - 1]) then TrimRight(s[..|s| - 1]) else s
  }

  /** `s.strip()`: the result neither starts nor ends with whitespace. */
  function Strip(s: string): (r: string)
    ensures r == [] || (!IsSpace(r[0]) && !IsSpace(r[|r| - 1]))
  {
    var l := TrimLeft(s);
    var r := TrimRight(l);
    assert r != [] ==> r[0] == l[0];
    r
  }

  /** `re.sub(r'\s+', ' ', s)`: every maximal whitespace run becomes one space. */
  function Collapse(s: string): (r: string)
    decreases |s|
  {
    if s == [] then []
    else if IsSpace(s[0]) then [' '] + Collapse(TrimLeft(s))
    else [s[0]] + Collapse(s[1..])
  }

  /** The header normalisation applied to every column name (line 13). */
  function CleanName(s: string): (r: string) {
    Collapse(Strip(s))
  }

  /** The characters of `s` that are not whitespace, in order. */
  function NonSpace(s: string): string {
    if s == [] then []
    else (if IsSpace(s[0]) then [] else [s[0]]) + NonSpace(s[1..])
  }

  /** Positions `i` and `i + 1` of `s` both hold a space. */
  predicate DoubleSpaceAt(s: string, i: int)
    requires 0 <= i < |s| - 1
  {
    s[i] == ' ' && s[i + 1] == ' '
  }

  /** Every whitespace character is a plain space and no two spaces are adjacent. */
  predicate SingleSpaced(s: string) {
    && (forall i :: 0 <= i < |s| && IsSpace(s[i]) ==> s[i] == ' ')
    && (forall i :: 0 <= i < |s| - 1 ==> !DoubleSpaceAt(s, i))
  }

  /** The shape of a cleaned column name. */
  predicate Normalized(s: string) {
    SingleSpaced(s) && (s != [] ==> s[0] != ' ' && s[|s| - 1] != ' ')
  }

  lemma SingleSpacedCons(c: char, t: string)
    requires SingleSpaced(t) && (IsSpace(c) ==> c == ' ')
    requires c == ' ' && t != [] ==> t[0] != ' '
    ensures SingleSpaced([c] + t)
  {
    var s := [c] + t;
    forall i | 0 <= i < |s| - 1 ensures !DoubleSpaceAt(s, i) {
      if i > 0 {
        assert !DoubleSpaceAt(t, i - 1);
      }
    }
  }

  /** What `Collapse` produces: single spaces, empty exactly for the empty
      string, and a space at either end exactly where `s` had whitespace. */
  lemma {:induction false} CollapseShape(s: string)
    ensures SingleSpaced(Collapse(s))
    ensures Collapse(s) == [] <==> s == []
    ensures s != [] ==> (Collapse(s)[0] == ' ' <==> IsSpace(s[0]))
    ensures s != [] ==> (Collapse(s)[|Collapse(s)| - 1] == ' ' <==> IsSpace(s[|s| - 1]))
    decreases |s|
  {
    if s == [] {
    } else if IsSpace(s[0]) {
      var t := TrimLeft(s);
      CollapseShape(t);
      var c := Collapse(t);
      assert Collapse(s) == [' '] + c;
      SingleSpacedCons(' ', c);
      if t == [] {
        assert IsSpace(s[|s| - 1]);
      } else {
        assert t[|t| - 1] == s[|s| - 1];
      }
    } else {
      CollapseShape(s[1..]);
      var c := Collapse(s[1..]);
      assert Collapse(s) == [s[0]] + c;
      SingleSpacedCons(s[0], c);
      if s[1..] != [] {
        assert s[1..][|s[1..]| - 1] == s[|s| - 1];
      }
    }
  }

  lemma SingleSpacedTail(s: string)
    requires s != [] && SingleSpaced(s)
    ensures SingleSpaced(s[1..])
  {
    forall i | 0 <= i < |s[1..]| - 1 ensures !DoubleSpaceAt(s[1..], i) {
      assert !DoubleSpaceAt(s, i + 1);
    }
  }

  /** A single-spaced string is left unchanged by `Collapse`. */
  lemma {:induction false} CollapseSingleSpaced(s: string)
    requires SingleSpaced(s)
    ensures Collapse(s) == s
    decreases |s|
  {
    if s != [] {
      SingleSpacedTail(s);
      CollapseSingleSpaced(s[1..]);
      if IsSpace(s[0]) {
        assert |s| > 1 ==> !IsSpace(s[1]) by {
          if |s| > 1 { assert s[0] == ' ' && !DoubleSpaceAt(s, 0); }
        }
        assert TrimLeft(s[1..]) == s[1..];
        assert Collapse(s) == [' '] + s[1..];
      } else {
        assert Collapse(s) == [s[0]] + s[1..];
      }
    }
  }

  /** `Collapse` leaves a string unchanged exactly when it is single-spaced. */
  lemma CollapseFixed(s: string)
    ensures Collapse(s) == s <==> SingleSpaced(s)
  {
    CollapseShape(s);
    if SingleSpaced(s) {
      CollapseSingleSpaced(s);
    }
  }

  lemma {:induction false} NonSpaceConcat(a: string, b: string)
    ensures NonSpace(a + b) == NonSpace(a) + NonSpace(b)
    decreases |a|
  {
    if a == [] {
      assert a + b == b;
    } else {
      assert (a + b)[0] == a[0];
      assert (a + b)[1..] == a[1..] + b;
      NonSpaceConcat(a[1..], b);
      calc {
        NonSpace(a + b);
        (if IsSpace(a[0]) then [] else [a[0]]) + NonSpace(a[1..] + b);
        (if IsSpace(a[0]) then [] else [a[0]]) + (NonSpace(a[1..]) + NonSpace(b));
        NonSpace(a) + NonSpace(b);
      }
    }
  }

  lemma {:induction false} NonSpaceOfSpaces(s: string)
    requires forall i :: 0 <= i < |s| ==> IsSpace(s[i])
    ensures NonSpace(s) == []
    decreases |s|
  {
    if s != [] {
      NonSpaceOfSpaces(s[1..]);
    }
  }

  lemma TrimLeftKeepsText(s: string)
    ensures NonSpace(TrimLeft(s)) == NonSpace(s)
  {
    var l := TrimLeft(s);
    var k := |s| - |l|;
    assert s == s[..k] + l;
    NonSpaceConcat(s[..k], l);
    NonSpaceOfSpaces(s[..k]);
  }

  lemma TrimRightKeepsText(s: string)
    ensures NonSpace(TrimRight(s)) == NonSpace(s)
  {
    var r := TrimRight(s);
    assert s == r + s[|r|..];
    NonSpaceConcat(r, s[|r|..]);
    NonSpaceOfSpaces(s[|r|..]);
  }

  /** Stripping removes whitespace only. */
  lemma StripKeepsText(s: string)
    ensures NonSpace(Strip(s)) == NonSpace(s)
  {
    TrimLeftKeepsText(s);
    TrimRightKeepsText(TrimLeft(s));
  }

  /** Collapsing whitespace runs removes whitespace only. */
  lemma {:induction false} CollapseKeepsText(s: string)
    ensures NonSpace(Collapse(s)) == NonSpace(s)
    decreases |s|
  {
    if s == [] {
    } else if IsSpace(s[0]) {
      var t := TrimLeft(s);
      CollapseKeepsText(t);
      TrimLeftKeepsText(s);
      NonSpaceConcat([' '], Collapse(t));
    } else {
      CollapseKeepsText(s[1..]);
      NonSpaceConcat([s[0]], Collapse(s[1..]));
    }
  }

  /** Every cleaned name is normalised. */
  lemma CleanNameNormalized(s: string)
    ensures Normalized(CleanName(s))
  {
    var t := Strip(s);
    CollapseShape(t);
  }

  /** A name is left unchanged by cleaning exactly when it is already normalised. */
  lemma CleanNameFixed(s: string)
    ensures CleanName(s) == s <==> Normalized(s)
  {
    CleanNameNormalized(s);
    if Normalized(s) {
      if s != [] {
        assert !IsSpace(s[0]) && !IsSpace(s[|s| - 1]);
      }
      assert TrimLeft(s) == s;
      assert TrimRight(s) == s;
      CollapseFixed(s);
    }
  }

  /** Cleaning twice is the same as cleaning once. */
  lemma CleanNameIdempotent(s: string)
    ensures CleanName(CleanName(s)) == CleanName(s)
  {
    CleanNameNormalized(s);
    CleanNameFixed(CleanName(s));
  }

  /** Cleaning changes whitespace only: the other characters stay, in order. */
  lemma CleanNameKeepsText(s: string)
    ensures NonSpace(CleanName(s)) == NonSpace(s)
  {
    StripKeepsText(s);
    CollapseKeepsText(Strip(s));
  }

  /** The leading word of `s`: its longest prefix free of whitespace. */
  function LeadWord(s: string): (r: string)
    ensures |r| <= |s| && r == s[..|r|]
    ensures forall i :: 0 <= i < |r| ==> !IsSpace(r[i])
    ensures |r| == |s| || IsSpace(s[|r|])
  {
    if s == [] || IsSpace(s[0]) then [] else [s[0]] + LeadWord(s[1..])
  }

  /** A whitespace-free prefix that reaches a space or the end is the leading word. */
  lemma {:induction false} LeadWordUnique(s: string, p: string)
    requires |p| <= |s| && p == s[..|p|]
    requires forall i :: 0 <= i < |p| ==> !IsSpace(p[i])
    requires |p| == |s| || IsSpace(s[|p|])
    ensures LeadWord(s) == p
    decreases |p|
  {
    if p != [] {
      assert !IsSpace(s[0]);
      LeadWordUnique(s[1..], p[1..]);
      assert [p[0]] + p[1..] == p;
    }
  }

  /**
   * `s.split()`: the maximal runs of non-whitespace characters, in order.
   * Defined independently of `Collapse`.
   */
  function Words(s: string): (r: seq<string>)
    ensures forall i :: 0 <= i < |r| ==> r[i] != []
    ensures forall i, j :: 0 <= i < |r| && 0 <= j < |r[i]| ==> !IsSpace(r[i][j])
    decreases |s|
  {
    if s == [] then []
    else if IsSpace(s[0]) then Words(s[1..])
    else [LeadWord(s)] + Words(s[|LeadWord(s)|..])
  }

  /** Leading whitespace separates no words. */
  lemma {:induction false} WordsTrimLeft(s: string)
    ensures Words(TrimLeft(s)) == Words(s)
    decreases |s|
  {
    if s != [] && IsSpace(s[0]) {
      WordsTrimLeft(s[1..]);
    }
  }

  /** Trailing whitespace separates no words. */
  lemma {:induction false} WordsAppendSpace(x: string, sp: string)
    requires forall i :: 0 <= i < |sp| ==> IsSpace(sp[i])
    ensures Words(x + sp) == Words(x)
    decreases |x| + |sp|
  {
    var s := x + sp;
    if x == [] {
      assert s == sp;
      if sp != [] {
        WordsAppendSpace([], sp[1..]);
        assert s[1..] == [] + sp[1..];
      }
    } else if IsSpace(x[0]) {
      assert s[1..] == x[1..] + sp;
      WordsAppendSpace(x[1..], sp);
    } else {
      var w := LeadWord(x);
      assert w == s[..|w|];
      LeadWordUnique(s, w);
      assert s[|w|..] == x[|w|..] + sp;
      WordsAppendSpace(x[|w|..], sp);
    }
  }

  /** Dropping trailing whitespace keeps the words. */
  lemma WordsTrimRight(l: string)
    ensures Words(TrimRight(l)) == Words(l)
  {
    var r := TrimRight(l);
    var sp := l[|r|..];
    assert l == r + sp;
    WordsAppendSpace(r, sp);
  }

  /** Stripping keeps the words. */
  lemma WordsStrip(s: string)
    ensures Words(Strip(s)) == Words(s)
  {
    WordsTrimLeft(s);
    WordsTrimRight(TrimLeft(s));
  }

  /** A whitespace-free prefix passes through `Collapse` unchanged. */
  lemma {:induction false} CollapseWordPrefix(w: string, v: string)
    requires forall i :: 0 <= i < |w| ==> !IsSpace(w[i])
    ensures Collapse(w + v) == w + Collapse(v)
    decreases |w|
  {
    if w == [] {
      assert w + v == v;
    } else {
      var s := w + v;
      assert s[0] == w[0];
      assert s[1..] == w[1..] + v;
      CollapseWordPrefix(w[1..], v);
      assert Collapse(s) == [w[0]] + (w[1..] + Collapse(v));
      assert [w[0]] + (w[1..] + Collapse(v)) == w + Collapse(v);
    }
  }

  /** Leading whitespace followed by a non-space is exactly what `TrimLeft` drops. */
  lemma {:induction false} TrimLeftRun(sp: string, v: string)
    requires forall i :: 0 <= i < |sp| ==> IsSpace(sp[i])
    requires v == [] || !IsSpace(v[0])
    ensures TrimLeft(sp + v) == v
    decreases |sp|
  {
    if sp == [] {
      assert sp + v == v;
    } else {
      assert (sp + v)[1..] == sp[1..] + v;
      TrimLeftRun(sp[1..], v);
    }
  }

  /** A whole whitespace run, however long, becomes exactly one space. */
  lemma CollapseSpaceRun(sp: string, v: string)
    requires sp != [] && forall i :: 0 <= i < |sp| ==> IsSpace(sp[i])
    requires v == [] || !IsSpace(v[0])
    ensures Collapse(sp + v) == [' '] + Collapse(v)
  {
    TrimLeftRun(sp, v);
    assert (sp + v)[0] == sp[0];
  }

  /** One space when `s` ends in whitespace, nothing otherwise. */
  function TrailingSpace(s: string): (r: string) {
    if s != [] && IsSpace(s[|s| - 1]) then [' '] else []
  }

  /**
   * On a string that does not start with whitespace, collapsing yields the
   * words joined by single spaces, plus one space if the string ends in
   * whitespace.
   */
  lemma {:induction false} CollapseWords(s: string)
    requires s == [] || !IsSpace(s[0])
    ensures Collapse(s) == Tokens.Join(Words(s), ' ') + TrailingSpace(s)
    decreases |s|
  {
    if s != [] {
      var w := LeadWord(s);
      var rest := s[|w|..];
      assert s == w + rest;
      CollapseWordPrefix(w, rest);
      assert Words(s) == [w] + Words(rest);
      if rest == [] {
        CollapseWordsLast(s, w);
      } else {
        var t := TrimLeft(rest);
        assert Collapse(rest) == [' '] + Collapse(t);
        WordsTrimLeft(rest);
        CollapseWords(t);
        if t == [] {
          CollapseWordsTrailing(s, w, rest);
        } else {
          CollapseWordsStep(s, w, rest, t);
        }
      }
    }
  }

  /** The last case of `CollapseWords`: the string is a single word. */
  lemma CollapseWordsLast(s: string, w: string)
    requires s != [] && !IsSpace(s[0]) && w == LeadWord(s) && s[|w|..] == []
    requires Collapse(s) == w + Collapse([])
    requires Words(s) == [w] + Words([])
    ensures Collapse(s) == Tokens.Join(Words(s), ' ') + TrailingSpace(s)
  {
    assert w == s;
    assert Tokens.Join([w], ' ') == w;
    assert [w] + [] == [w];
    assert w + [] == w;
  }

  /** A non-empty all-whitespace string ends in whitespace. */
  lemma AllSpaceLast(rest: string)
    requires rest != [] && TrimLeft(rest) == []
    ensures IsSpace(rest[|rest| - 1])
  {
  }

  /** A case of `CollapseWords`: a single word followed by whitespace only. */
  lemma CollapseWordsTrailing(s: string, w: string, rest: string)
    requires s == w + rest && rest != [] && TrimLeft(rest) == []
    requires Collapse(s) == w + Collapse(rest) && Collapse(rest) == [' '] + Collapse([])
    requires Words(s) == [w] + Words(rest) && Words(rest) == Words([])
    ensures Collapse(s) == Tokens.Join(Words(s), ' ') + TrailingSpace(s)
  {
    assert Collapse(s) == w + [' '];
    assert Words(s) == [w];
    assert Tokens.Join([w], ' ') == w;
    assert s[|s| - 1] == rest[|rest| - 1];
    AllSpaceLast(rest);
    assert TrailingSpace(s) == [' '];
  }

  /** A string that starts with a non-space has at least one word. */
  lemma WordsNonEmpty(t: string)
    requires t != [] && !IsSpace(t[0])
    ensures Words(t) != []
  {
  }

  /** Joining a word onto further words puts one separator between them. */
  lemma JoinCons(w: string, ws: seq<string>)
    requires ws != []
    ensures Tokens.Join([w] + ws, ' ') == w + [' '] + Tokens.Join(ws, ' ')
  {
    assert ([w] + ws)[1..] == ws;
  }

  /** A word, its run of whitespace and a non-empty remainder `t` end where `t` ends. */
  lemma LastOfRemainder(s: string, w: string, rest: string, t: string)
    requires s != [] && w == LeadWord(s) && rest == s[|w|..] && t == TrimLeft(rest) && t != []
    ensures s[|s| - 1] == t[|t| - 1]
  {
  }

  /** The inductive step of `CollapseWords`: a word, a whitespace run, and the rest. */
  lemma CollapseWordsStep(s: string, w: string, rest: string, t: string)
    requires s != [] && !IsSpace(s[0])
    requires w == LeadWord(s) && rest == s[|w|..] && rest != [] && t == TrimLeft(rest) && t != []
    requires Collapse(s) == w + Collapse(rest)
    requires Collapse(rest) == [' '] + Collapse(t)
    requires Words(s) == [w] + Words(rest)
    requires Words(t) == Words(rest)
    requires Collapse(t) == Tokens.Join(Words(t), ' ') + TrailingSpace(t)
    ensures Collapse(s) == Tokens.Join(Words(s), ' ') + TrailingSpace(s)
  {
    var ws := Words(t);
    var j := Tokens.Join(ws, ' ');
    var tr := TrailingSpace(t);
    WordsNonEmpty(t);
    JoinCons(w, ws);
    LastOfRemainder(s, w, rest, t);
    assert TrailingSpace(s) == tr;
    assert Collapse(s) == w + ([' '] + (j + tr));
    assert Tokens.Join(Words(s), ' ') == w + [' '] + j;
    ConcatAssoc(w, [' '], j, tr);
  }

  lemma ConcatAssoc(a: string, b: string, c: string, d: string)
    ensures a + (b + (c + d)) == (a + b + c) + d
  {
  }

  /**
   * Line 13 as a whole: a cleaned name is the words of the original name
   * joined by single spaces (`' '.join(s.split())`), so every internal
   * whitespace run becomes exactly one space.
   */
  lemma CleanNameWords(s: string)
    ensures CleanName(s) == Tokens.Join(Words(s), ' ')
  {
    var t := Strip(s);
    CollapseWords(t);
    WordsStrip(s);
  }

  /** An internal run of two spaces becomes one space, not none:
      `x  y` cleans to `x y` for any two non-space characters. */
  lemma CleanNameDoubleSpace(x: char, y: char)
    requires !IsSpace(x) && !IsSpace(y)
    ensures CleanName([x, ' ', ' ', y]) == [x, ' ', y]
  {
    var s := [x, ' ', ' ', y];
    assert TrimLeft(s) == s;
    assert TrimRight(s) == s;
    assert s == [x] + ([' ', ' '] + [y]);
    CollapseWordPrefix([x], [' ', ' '] + [y]);
    CollapseSpaceRun([' ', ' '], [y]);
    CollapseWordPrefix([y], []);
    assert [y] + [] == [y];
  }
}
