/** Character classes and the string clean-ups app.py applies to a matched line:
    str.strip(), re.sub(r'\s+', ' ', ...), the split on the first '-' and
    str.split('\n'). */
module Text {

  /** Python's notion of whitespace: str.isspace(), and the class `\s` of a
      str pattern, which CPython takes from the same table. */
  predicate IsSpace(c: char) {
    c == ' ' || '\t' <= c <= '\r' || '\U{1c}' <= c <= '\U{1f}'
    || c == '\U{85}' || c == '\U{a0}' || c == '\U{1680}'
    || '\U{2000}' <= c <= '\U{200a}' || c == '\U{2028}' || c == '\U{2029}'
    || c == '\U{202f}' || c == '\U{205f}' || c == '\U{3000}'
  }

  predicate AllSpace(s: string) {
    forall i | 0 <= i < |s| :: IsSpace(s[i])
  }

  /** Neither the first nor the last character is whitespace. */
  predicate NoEdgeSpace(s: string) {
    s == [] || (!IsSpace(s[0]) && !IsSpace(s[|s| - 1]))
  }

  /** No two adjacent characters are both whitespace. */
  predicate NoDoubleSpace(s: string) {
    forall i | 0 <= i < |s| - 1 :: !(IsSpace(s[i]) && IsSpace(s[i + 1]))
  }

  /** Every whitespace character is a plain space. */
  predicate PlainSpacesOnly(s: string) {
    forall i | 0 <= i < |s| :: IsSpace(s[i]) ==> s[i] == ' '
  }

  /** a occurs in b as a contiguous piece. */
  ghost predicate IsInfix(a: string, b: string) {
    exists i :: InfixAt(a, b, i)
  }

  predicate InfixAt(a: string, b: string, i: int) {
    0 <= i <= |b| - |a| && b[i..i + |a|] == a
  }

  /** The non-whitespace characters of s, in order: what a reader sees. */
  function Visible(s: string): string {
    if s == [] then [] else (if IsSpace(s[0]) then [] else [s[0]]) + Visible(s[1..])
  }

  lemma {:induction false} VisibleAppend(a: string, b: string)
    ensures Visible(a + b) == Visible(a) + Visible(b)
  {
    if a == [] {
      assert a + b == b;
    } else {
      assert (a + b)[0] == a[0];
      assert (a + b)[1..] == a[1..] + b;
      VisibleAppend(a[1..], b);
    }
  }

  lemma {:induction false} VisibleOfSpaces(s: string)
    requires AllSpace(s)
    ensures Visible(s) == []
  {
    if s != [] {
      VisibleOfSpaces(s[1..]);
    }
  }

  lemma {:induction false} VisibleContains(s: string, c: char)
    requires !IsSpace(c)
    ensures c in s <==> c in Visible(s)
  {
    if s != [] {
      VisibleContains(s[1..], c);
      assert s == [s[0]] + s[1..];
    }
  }

  /** Properties a string inherits by its pieces. */
  lemma InfixKeeps(a: string, b: string, c: char)
    requires IsInfix(a, b)
    ensures c !in b ==> c !in a
    ensures NoDoubleSpace(b) ==> NoDoubleSpace(a)
    ensures PlainSpacesOnly(b) ==> PlainSpacesOnly(a)
  {
    var i :| InfixAt(a, b, i);
    assert forall k | 0 <= k < |a| :: a[k] == b[i + k];
  }

  /** Drops the leading whitespace (str.lstrip()). */
  function TrimStart(s: string): (r: string)
    ensures |r| <= |s| && r == s[|s| - |r|..]
    ensures AllSpace(s[..|s| - |r|])
    ensures r == [] || !IsSpace(r[0])
    decreases |s|
  {
    if s != [] && IsSpace(s[0]) then
      var r := TrimStart(s[1..]);
      assert s[..|s| - |r|] == [s[0]] + s[1..][..|s[1..]| - |r|];
      r
    else s
  }

  /** Drops the trailing whitespace (str.rstrip()). */
  function TrimEnd(s: string): (r: string)
    ensures |r| <= |s| && r == s[..|r|]
    ensures AllSpace(s[|r|..])
    ensures r == [] || !IsSpace(r[|r| - 1])
    decreases |s|
  {
    if s != [] && IsSpace(s[|s| - 1]) then
      var r := TrimEnd(s[..|s| - 1]);
      assert s[|r|..] == s[..|s| - 1][|r|..] + [s[|s| - 1]];
      r
    else s
  }

  /** str.strip(): the piece of s left after removing whitespace at both ends. */
  function Strip(s: string): (r: string)
    ensures NoEdgeSpace(r)
    ensures IsInfix(r, s)
    ensures Visible(r) == Visible(s)
  {
    var t := TrimStart(s);
    var r := TrimEnd(t);
    TrimmedPiece(s, t, r);
    r
  }

  /** Cutting whitespace from the front of s, giving t, and from the back of t,
      giving r, leaves a piece of s with all of its visible text. */
  lemma TrimmedPiece(s: string, t: string, r: string)
    requires |t| <= |s| && t == s[|s| - |t|..] && AllSpace(s[..|s| - |t|])
    requires |r| <= |t| && r == t[..|r|] && AllSpace(t[|r|..])
    requires (t == [] || !IsSpace(t[0])) && (r == [] || !IsSpace(r[|r| - 1]))
    ensures IsInfix(r, s) && Visible(r) == Visible(s) && NoEdgeSpace(r)
  {
    assert r != [] ==> r[0] == t[0];
    var i := |s| - |t|;
    assert InfixAt(r, s, i);
    SpacesThenRest(s, t);
    assert t == r + t[|r|..];
    VisibleAppend(r, t[|r|..]);
    VisibleOfSpaces(t[|r|..]);
  }

  /** re.sub(r'\s+', ' ', s): every maximal run of whitespace becomes one space. */
  function CollapseSpaces(s: string): (r: string)
    ensures Collapsed(s, r)
    decreases |s|
  {
    if s == [] then []
    else if IsSpace(s[0]) then
      var t := TrimStart(s);
      var rest := CollapseSpaces(t);
      CollapseRunStep(s, t, rest);
      [' '] + rest
    else
      var rest := CollapseSpaces(s[1..]);
      CollapseCharStep(s, rest);
      [s[0]] + rest
  }

  /** What CollapseSpaces promises: r has the words of s, in order, with one
      plain space wherever s has a run of whitespace (at either end too). */
  predicate Collapsed(s: string, r: string) {
    (r == []) == (s == [])
    && (s != [] ==> (IsSpace(r[0]) <==> IsSpace(s[0])) && (IsSpace(r[|r| - 1]) <==> IsSpace(s[|s| - 1])))
    && NoDoubleSpace(r) && PlainSpacesOnly(r)
    && Visible(r) == Visible(s)
    && Words(r) == Words(s)
  }

  lemma CollapseRunStep(s: string, t: string, rest: string)
    requires s != [] && IsSpace(s[0])
    requires |t| < |s| && t == s[|s| - |t|..] && AllSpace(s[..|s| - |t|]) && (t == [] || !IsSpace(t[0]))
    requires Collapsed(t, rest)
    ensures Collapsed(s, [' '] + rest)
  {
    SpacesThenRest(s, t);
    PrefixKeepsClean(' ', rest);
    WordsAfterSpaces(s, |s| - |t|);
    assert ([' '] + rest)[1..] == rest;
    if t == [] {
      assert AllSpace(s);
    } else {
      assert s[|s| - 1] == t[|t| - 1];
    }
  }

  lemma CollapseCharStep(s: string, rest: string)
    requires s != [] && !IsSpace(s[0])
    requires Collapsed(s[1..], rest)
    ensures Collapsed(s, [s[0]] + rest)
  {
    PrefixKeepsClean(s[0], rest);
    assert s == [s[0]] + s[1..];
    VisibleAppend([s[0]], s[1..]);
    var r := [s[0]] + rest;
    assert r[1..] == rest;
    assert |r| > 1 ==> r[1] == rest[0] && s[1] == s[1..][0];
  }

  lemma SpacesThenRest(s: string, t: string)
    requires |t| <= |s| && t == s[|s| - |t|..] && AllSpace(s[..|s| - |t|])
    ensures Visible(s) == Visible(t)
  {
    assert s == s[..|s| - |t|] + t;
    VisibleAppend(s[..|s| - |t|], t);
    VisibleOfSpaces(s[..|s| - |t|]);
  }

  /** Putting c in front of a collapsed string keeps it collapsed, unless c
      makes a second space. */
  lemma PrefixKeepsClean(c: char, rest: string)
    requires NoDoubleSpace(rest) && PlainSpacesOnly(rest)
    requires IsSpace(c) ==> c == ' ' && (rest == [] || !IsSpace(rest[0]))
    ensures NoDoubleSpace([c] + rest) && PlainSpacesOnly([c] + rest)
    ensures Visible([c] + rest) == (if IsSpace(c) then [] else [c]) + Visible(rest)
  {
    var s := [c] + rest;
    assert s[1..] == rest;
    forall i | 0 <= i < |s| - 1 ensures !(IsSpace(s[i]) && IsSpace(s[i + 1])) {
      if i > 0 { assert s[i] == rest[i - 1] && s[i + 1] == rest[i]; }
    }
    forall i | 0 <= i < |s| ensures IsSpace(s[i]) ==> s[i] == ' ' {
      if i > 0 { assert s[i] == rest[i - 1]; }
    }
  }

  /** A word of str.split(): a non-empty run without whitespace. */
  predicate IsWord(w: string) {
    w != [] && forall k | 0 <= k < |w| :: !IsSpace(w[k])
  }

  lemma AllSpaceCons(s: string)
    requires s != []
    ensures AllSpace(s) <==> IsSpace(s[0]) && AllSpace(s[1..])
  {
    assert forall k | 0 < k < |s| :: s[k] == s[1..][k - 1];
  }

  /** str.split() with no argument: the maximal runs of non-whitespace, in order. */
  function Words(s: string): (ws: seq<string>)
    ensures ws == [] <==> AllSpace(s)
    ensures forall i | 0 <= i < |ws| :: IsWord(ws[i])
    decreases |s|
  {
    if s == [] then []
    else
      AllSpaceCons(s);
      var rest := Words(s[1..]);
      if IsSpace(s[0]) then rest
      else if |s| > 1 && !IsSpace(s[1]) then
        assert !AllSpace(s[1..]) by { assert s[1..][0] == s[1]; }
        var w := [s[0]] + rest[0];
        assert IsWord(w) by { assert forall k | 0 < k < |w| :: w[k] == rest[0][k - 1]; }
        [w] + rest[1..]
      else
        [[s[0]]] + rest
  }

  /** " ".join(ws) */
  function JoinWords(ws: seq<string>): string {
    if ws == [] then "" else if |ws| == 1 then ws[0] else ws[0] + " " + JoinWords(ws[1..])
  }

  /** Whitespace in front does not change the words. */
  lemma {:induction false} WordsAfterSpaces(s: string, n: nat)
    requires n <= |s| && AllSpace(s[..n])
    ensures Words(s) == Words(s[n..])
    decreases n
  {
    if n > 0 {
      assert s[0] == s[..n][0];
      assert s[1..][..n - 1] == s[..n][1..];
      AllSpaceCons(s[..n]);
      WordsAfterSpaces(s[1..], n - 1);
      assert s[1..][n - 1..] == s[n..];
    }
  }

  /** " ".join of words is empty only when there are none. */
  lemma JoinWordsEmpty(ws: seq<string>)
    requires forall i | 0 <= i < |ws| :: IsWord(ws[i])
    ensures JoinWords(ws) == [] <==> ws == []
  {
    if |ws| > 1 {
      assert |JoinWords(ws)| >= |ws[0]|;
    }
  }

  /** A character glued to the front of the first word. */
  lemma JoinWordsCons(c: char, ws: seq<string>)
    requires ws != []
    ensures JoinWords([[c] + ws[0]] + ws[1..]) == [c] + JoinWords(ws)
  {
    var vs := [[c] + ws[0]] + ws[1..];
    assert vs[1..] == ws[1..];
  }

  /** What " ".join(s.split()) puts between the words of a and those of b when
      s is a followed by b: a space when both have words and whitespace meets
      at the junction; otherwise the last word of a and the first of b are one
      word, or one side has no words. */
  function Gap(a: string, b: string): string {
    if a != [] && b != [] && Words(a) != [] && Words(b) != [] && (IsSpace(a[|a| - 1]) || IsSpace(b[0])) then " " else ""
  }

  /** " ".join(s.split()) for s starting with a visible character. */
  lemma CleanCons(c: char, y: string)
    requires !IsSpace(c)
    ensures JoinWords(Words([c] + y)) == [c] + Gap([c], y) + JoinWords(Words(y))
  {
    var s := [c] + y;
    assert s[1..] == y;
    assert Words([c]) == [[c]];
    if y != [] && !IsSpace(y[0]) {
      assert s[1] == y[0];
      JoinWordsCons(c, Words(y));
    } else {
      var ws := [[c]] + Words(y);
      assert ws[1..] == Words(y);
    }
  }

  /** " ".join((a + b).split()) from the same of a and of b. */
  lemma {:induction false} CleanAppend(a: string, b: string)
    ensures JoinWords(Words(a + b)) == JoinWords(Words(a)) + Gap(a, b) + JoinWords(Words(b))
    decreases |a|
  {
    if a == [] {
      assert a + b == b;
    } else {
      var c, a' := a[0], a[1..];
      assert a == [c] + a' && a + b == [c] + (a' + b);
      CleanAppend(a', b);
      if IsSpace(c) {
        CleanAppendSpace(c, a', b);
      } else {
        CleanAppendVisible(c, a', b);
      }
    }
  }

  lemma CleanAppendSpace(c: char, a: string, b: string)
    requires IsSpace(c)
    requires JoinWords(Words(a + b)) == JoinWords(Words(a)) + Gap(a, b) + JoinWords(Words(b))
    ensures JoinWords(Words([c] + (a + b))) == JoinWords(Words([c] + a)) + Gap([c] + a, b) + JoinWords(Words(b))
  {
    assert ([c] + (a + b))[1..] == a + b;
    assert ([c] + a)[1..] == a;
    assert a != [] ==> ([c] + a)[|a|] == a[|a| - 1];
  }

  lemma CleanAppendVisible(c: char, a: string, b: string)
    requires !IsSpace(c)
    requires JoinWords(Words(a + b)) == JoinWords(Words(a)) + Gap(a, b) + JoinWords(Words(b))
    ensures JoinWords(Words([c] + (a + b))) == JoinWords(Words([c] + a)) + Gap([c] + a, b) + JoinWords(Words(b))
  {
    CleanCons(c, a + b);
    CleanCons(c, a);
    GapShift(c, a, b);
    Regroup([c], Gap([c], a + b), JoinWords(Words(a)), Gap(a, b), JoinWords(Words(b)), Gap([c], a), Gap([c] + a, b));
  }

  lemma Regroup(h: string, g1: string, x: string, g2: string, y: string, g3: string, g4: string)
    requires g1 + x + g2 == g3 + x + g4
    ensures h + g1 + (x + g2 + y) == h + g3 + x + g4 + y
  {
    calc {
      h + g1 + (x + g2 + y);
      h + (g1 + x + g2) + y;
      h + (g3 + x + g4) + y;
    }
  }

  /** The gaps around the words of a, with and without c in front. */
  lemma GapShift(c: char, a: string, b: string)
    requires !IsSpace(c)
    requires JoinWords(Words(a + b)) == JoinWords(Words(a)) + Gap(a, b) + JoinWords(Words(b))
    ensures Gap([c], a + b) + JoinWords(Words(a)) + Gap(a, b) == Gap([c], a) + JoinWords(Words(a)) + Gap([c] + a, b)
  {
    var ca := [c] + a;
    assert Words(ca) != [];
    if a == [] {
      assert a + b == b && ca == [c];
    } else if Words(a) == [] {
      GapShiftSpaces(c, a, b);
    } else {
      GapShiftWords(c, a, b);
    }
  }

  /** a is only whitespace: c and the words of b are apart exactly when b has words. */
  lemma GapShiftSpaces(c: char, a: string, b: string)
    requires !IsSpace(c) && a != [] && Words(a) == []
    requires JoinWords(Words(a + b)) == JoinWords(Words(b))
    ensures Gap([c], a + b) == Gap([c] + a, b)
  {
    JoinWordsEmpty(Words(b));
    JoinWordsEmpty(Words(a + b));
    var ca := [c] + a;
    assert ca[|ca| - 1] == a[|a| - 1] && (a + b)[0] == a[0];
    assert IsSpace(a[|a| - 1]) && IsSpace(a[0]);
  }

  /** a has words: c in front changes neither gap. */
  lemma GapShiftWords(c: char, a: string, b: string)
    requires !IsSpace(c) && Words(a) != []
    requires JoinWords(Words(a + b)) == JoinWords(Words(a)) + Gap(a, b) + JoinWords(Words(b))
    ensures Gap([c], a + b) == Gap([c], a) && Gap(a, b) == Gap([c] + a, b)
  {
    JoinWordsEmpty(Words(a));
    JoinWordsEmpty(Words(a + b));
    GapFront(c, a, b);
    GapBack(c, a, b);
  }

  lemma GapFront(c: char, a: string, b: string)
    requires !IsSpace(c) && a != [] && Words(a) != [] && Words(a + b) != []
    ensures Gap([c], a + b) == Gap([c], a)
  {
    assert Words([c]) != [];
    assert (a + b)[0] == a[0];
  }

  lemma GapBack(c: char, a: string, b: string)
    requires a != [] && Words(a) != []
    ensures Gap(a, b) == Gap([c] + a, b)
  {
    var ca := [c] + a;
    assert ca[1..] == a;
    AllSpaceCons(ca);
    assert ca[|ca| - 1] == a[|a| - 1];
    GapSameEnd(a, ca, b);
  }

  lemma GapSameEnd(a: string, a': string, b: string)
    requires a != [] && a' != [] && Words(a) != [] && Words(a') != [] && a[|a| - 1] == a'[|a'| - 1]
    ensures Gap(a, b) == Gap(a', b)
  {
  }

  /** For text already clean, splitting into words and joining them gives it back. */
  lemma {:induction false} JoinWordsOfClean(r: string)
    requires NoEdgeSpace(r) && NoDoubleSpace(r) && PlainSpacesOnly(r)
    ensures JoinWords(Words(r)) == r
    decreases |r|
  {
    if |r| > 1 {
      var c, r' := r[0], r[1..];
      assert r == [c] + r';
      if !IsSpace(r'[0]) {
        CleanPiece(r, 1);
        JoinWordsOfClean(r');
        CleanNext(c, r');
      } else {
        assert r'[0] == ' ' && |r| > 2 && !IsSpace(r[2]);
        var r'' := r[2..];
        assert r' == " " + r'';
        CleanPiece(r, 2);
        JoinWordsOfClean(r'');
        CleanSpaceNext(c, r'');
      }
    }
  }

  /** A visible character in front of clean text that starts visibly. */
  lemma CleanNext(c: char, y: string)
    requires !IsSpace(c) && y != [] && !IsSpace(y[0]) && JoinWords(Words(y)) == y
    ensures JoinWords(Words([c] + y)) == [c] + y
  {
    CleanCons(c, y);
  }

  /** A visible character and a space in front of clean text that starts visibly. */
  lemma CleanSpaceNext(c: char, z: string)
    requires !IsSpace(c) && z != [] && !IsSpace(z[0]) && JoinWords(Words(z)) == z
    ensures JoinWords(Words([c] + (" " + z))) == [c] + (" " + z)
  {
    var y := " " + z;
    assert y[1..] == z;
    assert Words(y) == Words(z);
    CleanCons(c, y);
    JoinWordsEmpty(Words(z));
  }

  /** The rest of clean text from a visible character on is clean. */
  lemma CleanPiece(r: string, n: nat)
    requires NoEdgeSpace(r) && NoDoubleSpace(r) && PlainSpacesOnly(r)
    requires n < |r| && !IsSpace(r[n])
    ensures NoEdgeSpace(r[n..]) && NoDoubleSpace(r[n..]) && PlainSpacesOnly(r[n..])
  {
    assert forall k | 0 <= k < |r| - n :: r[n..][k] == r[n + k];
  }

  /** The description clean-up of app.py: strip, then collapse whitespace runs.
      The result is " ".join(s.split()). */
  function CleanDescription(s: string): (r: string)
    ensures NoEdgeSpace(r) && NoDoubleSpace(r) && PlainSpacesOnly(r)
    ensures Visible(r) == Visible(s)
    ensures r == JoinWords(Words(s))
  {
    var t := Strip(s);
    var r := CollapseSpaces(t);
    StripKeepsWords(s);
    JoinWordsOfClean(r);
    r
  }

  /** str.strip() does not change " ".join(s.split()). */
  lemma StripKeepsWords(s: string)
    ensures JoinWords(Words(Strip(s))) == JoinWords(Words(s))
  {
    var t := TrimStart(s);
    var r := TrimEnd(t);
    assert Strip(s) == r;
    TrimmedWords(s, t, r);
  }

  /** Whitespace cut from the front of s, giving t, and from the back of t,
      giving r, does not change the words. */
  lemma TrimmedWords(s: string, t: string, r: string)
    requires |t| <= |s| && t == s[|s| - |t|..] && AllSpace(s[..|s| - |t|])
    requires |r| <= |t| && r == t[..|r|] && AllSpace(t[|r|..])
    ensures JoinWords(Words(r)) == JoinWords(Words(s))
  {
    var n := |s| - |t|;
    assert s == s[..n] + t;
    SpacesBefore(s[..n], t);
    assert t == r + t[|r|..];
    SpacesAfter(r, t[|r|..]);
  }

  /** Leading whitespace does not change " ".join(s.split()). */
  lemma SpacesBefore(sp: string, t: string)
    requires AllSpace(sp)
    ensures JoinWords(Words(sp + t)) == JoinWords(Words(t))
  {
    CleanAppend(sp, t);
    assert Words(sp) == [];
  }

  /** Trailing whitespace does not change " ".join(s.split()). */
  lemma SpacesAfter(r: string, sp: string)
    requires AllSpace(sp)
    ensures JoinWords(Words(r + sp)) == JoinWords(Words(r))
  {
    CleanAppend(r, sp);
    assert Words(sp) == [];
    assert r + [] == r;
  }

  /** Position of the first occurrence of c. */
  function IndexOf(s: string, c: char): (k: nat)
    requires c in s
    ensures k < |s| && s[k] == c && c !in s[..k]
  {
    if s[0] == c then 0 else 1 + IndexOf(s[1..], c)
  }

  /** The detail split of app.py: when the cleaned description holds a '-', the
      text before the first '-' becomes the description and the text after it the
      detail, both stripped; otherwise the detail is empty. */
  function SplitDetail(d: string): (r: (string, string))
    ensures '-' !in r.0
    ensures '-' !in d ==> r == (d, "")
    ensures '-' in d ==> var k := IndexOf(d, '-');
              NoEdgeSpace(r.0) && IsInfix(r.0, d[..k]) && Visible(r.0) == Visible(d[..k])
              && NoEdgeSpace(r.1) && IsInfix(r.1, d[k + 1..]) && Visible(r.1) == Visible(d[k + 1..])
    ensures '-' in d ==> Visible(d) == Visible(r.0) + "-" + Visible(r.1)
    ensures NoDoubleSpace(d) ==> NoDoubleSpace(r.0) && NoDoubleSpace(r.1)
    ensures PlainSpacesOnly(d) ==> PlainSpacesOnly(r.0) && PlainSpacesOnly(r.1)
  {
    if '-' in d then
      var k := IndexOf(d, '-');
      var before, after := Strip(d[..k]), Strip(d[k + 1..]);
      DashPieces(d, k, before, after);
      (before, after)
    else
      (d, "")
  }

  lemma IndexOfIs(s: string, c: char, k: nat)
    requires k < |s| && s[k] == c && c !in s[..k]
    ensures IndexOf(s, c) == k
  {
  }

  lemma TrimStartVisible(x: string)
    requires x == [] || !IsSpace(x[0])
    ensures TrimStart(x) == x
  {
  }

  lemma TrimEndVisible(x: string)
    requires x == [] || !IsSpace(x[|x| - 1])
    ensures TrimEnd(x) == x
  {
  }

  lemma StripIs(s: string, t: string, r: string)
    requires t == TrimStart(s) && r == TrimEnd(t)
    ensures Strip(s) == r
  {
  }

  /** Clean text is its own strip. */
  lemma StripClean(x: string)
    requires NoEdgeSpace(x)
    ensures Strip(x) == x
  {
    TrimStartVisible(x);
    TrimEndVisible(x);
    StripIs(x, x, x);
  }

  /** A space after clean text is stripped off. */
  lemma StripSpaceAfter(x: string)
    requires x != [] && NoEdgeSpace(x)
    ensures Strip(x + " ") == x
  {
    var y := x + " ";
    assert y[0] == x[0] && y[..|y| - 1] == x;
    TrimStartVisible(y);
    assert TrimEnd(y) == TrimEnd(x);
    TrimEndVisible(x);
    StripIs(y, y, x);
  }

  /** A space before clean text is stripped off. */
  lemma StripSpaceBefore(x: string)
    requires x != [] && NoEdgeSpace(x)
    ensures Strip(" " + x) == x
  {
    var y := " " + x;
    assert y[1..] == x;
    assert TrimStart(y) == TrimStart(x);
    TrimStartVisible(x);
    TrimEndVisible(x);
    StripIs(y, x, x);
  }

  /** " ".join(s.split()) of a text with a '-' at k and none before it: its
      first '-' stands between the clean text before k and the clean text
      after k, with at most a space on either side. */
  lemma CleanAtDash(x: string, k: nat, c: string)
    requires k < |x| && x[k] == '-' && '-' !in x[..k] && c == JoinWords(Words(x))
    ensures SplitDetail(c) == (JoinWords(Words(x[..k])), JoinWords(Words(x[k + 1..])))
  {
    var a, g1, g2, b := CleanDashPieces(x, k);
    DashBetween(c, a, g1, g2, b);
  }

  /** The pieces " ".join(x.split()) is made of around the first '-' of x. */
  lemma CleanDashPieces(x: string, k: nat) returns (a: string, g1: string, g2: string, b: string)
    requires k < |x| && x[k] == '-' && '-' !in x[..k]
    ensures JoinWords(Words(x)) == a + g1 + ("-" + g2 + b)
    ensures a == JoinWords(Words(x[..k])) && b == JoinWords(Words(x[k + 1..]))
    ensures NoEdgeSpace(a) && NoEdgeSpace(b) && '-' !in a
    ensures g1 == "" || (g1 == " " && a != [])
    ensures g2 == "" || (g2 == " " && b != [])
  {
    var before, after := x[..k], x[k + 1..];
    g1, g2 := Gap(before, "-" + after), Gap("-", after);
    CleanAroundDash(x, k);
    a, b := JoinWords(Words(before)), JoinWords(Words(after));
    CleanFacts(before);
    CleanFacts(after);
    GapFits(before, "-" + after, a);
    GapFits("-", after, b);
    VisibleContains(before, '-');
    VisibleContains(a, '-');
  }

  /** " ".join(s.split()) is clean text with the visible characters of s. */
  lemma CleanFacts(s: string)
    ensures var r := JoinWords(Words(s));
            NoEdgeSpace(r) && NoDoubleSpace(r) && PlainSpacesOnly(r) && Visible(r) == Visible(s)
  {
    var r := CleanDescription(s);
  }

  /** " ".join(x.split()) around a '-' of x. */
  lemma CleanAroundDash(x: string, k: nat)
    requires k < |x| && x[k] == '-'
    ensures JoinWords(Words(x)) == JoinWords(Words(x[..k])) + Gap(x[..k], "-" + x[k + 1..])
                                   + ("-" + Gap("-", x[k + 1..]) + JoinWords(Words(x[k + 1..])))
  {
    var a, b := x[..k], x[k + 1..];
    assert x == a + ("-" + b);
    CleanAppend(a, "-" + b);
    CleanCons('-', b);
  }

  /** The gap is a space only next to words. */
  lemma GapFits(a: string, b: string, w: string)
    requires w == JoinWords(Words(a)) || w == JoinWords(Words(b))
    ensures Gap(a, b) == "" || (Gap(a, b) == " " && w != [])
  {
    JoinWordsEmpty(Words(a));
    JoinWordsEmpty(Words(b));
  }

  /** Clean text, at most a space, '-', at most a space, clean text: the
      stripped sides of the first '-' are the two clean texts. */
  lemma DashBetween(c: string, a: string, g1: string, g2: string, b: string)
    requires c == a + g1 + ("-" + g2 + b)
    requires NoEdgeSpace(a) && NoEdgeSpace(b) && '-' !in a
    requires g1 == "" || (g1 == " " && a != [])
    requires g2 == "" || (g2 == " " && b != [])
    ensures SplitDetail(c) == (a, b)
  {
    DashAfter(a, g1, g2, b);
    var n := |a + g1|;
    StripBeforeDash(c, a, g1, g2, b, n);
    StripAfterDash(c, a, g1, g2, b, n);
    SplitDetailAt(c, n, a, b);
  }

  lemma StripBeforeDash(c: string, a: string, g1: string, g2: string, b: string, n: nat)
    requires c == a + g1 + ("-" + g2 + b) && n == |a + g1|
    requires NoEdgeSpace(a) && (g1 == "" || (g1 == " " && a != []))
    ensures n < |c| && Strip(c[..n]) == a
  {
    assert c[..n] == a + g1;
    PaddedAfter(a, g1);
  }

  lemma StripAfterDash(c: string, a: string, g1: string, g2: string, b: string, n: nat)
    requires c == a + g1 + ("-" + g2 + b) && n == |a + g1|
    requires NoEdgeSpace(b) && (g2 == "" || (g2 == " " && b != []))
    ensures n < |c| && Strip(c[n + 1..]) == b
  {
    assert c[n + 1..] == g2 + b;
    PaddedBefore(g2, b);
  }

  lemma DashAfter(a: string, g1: string, g2: string, b: string)
    requires '-' !in a && (g1 == "" || g1 == " ")
    ensures var c := a + g1 + ("-" + g2 + b);
            |a + g1| < |c| && c[|a + g1|] == '-' && '-' !in c[..|a + g1|]
  {
    var c := a + g1 + ("-" + g2 + b);
    var n := |a + g1|;
    assert c[n] == '-' && c[..n] == a + g1;
  }

  lemma PaddedAfter(a: string, g: string)
    requires NoEdgeSpace(a) && (g == "" || (g == " " && a != []))
    ensures Strip(a + g) == a
  {
    if g == "" { assert a + g == a; StripClean(a); } else { StripSpaceAfter(a); }
  }

  lemma PaddedBefore(g: string, b: string)
    requires NoEdgeSpace(b) && (g == "" || (g == " " && b != []))
    ensures Strip(g + b) == b
  {
    if g == "" { assert g + b == b; StripClean(b); } else { StripSpaceBefore(b); }
  }

  /** SplitDetail of a text whose first '-' is at n. */
  lemma SplitDetailAt(d: string, n: nat, a: string, b: string)
    requires n < |d| && d[n] == '-' && '-' !in d[..n]
    requires Strip(d[..n]) == a && Strip(d[n + 1..]) == b
    ensures SplitDetail(d) == (a, b)
  {
    IndexOfIs(d, '-', n);
  }

  /** The properties SplitDetail promises of its two pieces, for any pieces
      that keep the visible text of the two sides of the first '-'. */
  lemma DashPieces(d: string, k: nat, a: string, b: string)
    requires k < |d| && d[k] == '-' && '-' !in d[..k]
    requires IsInfix(a, d[..k]) && Visible(a) == Visible(d[..k])
    requires IsInfix(b, d[k + 1..]) && Visible(b) == Visible(d[k + 1..])
    ensures '-' !in a && IsInfix(a, d) && IsInfix(b, d)
    ensures Visible(d) == Visible(a) + "-" + Visible(b)
    ensures NoDoubleSpace(d) ==> NoDoubleSpace(a) && NoDoubleSpace(b)
    ensures PlainSpacesOnly(d) ==> PlainSpacesOnly(a) && PlainSpacesOnly(b)
  {
    SplitAtDash(d, k, a, b);
    InfixKeeps(a, d, '-');
    InfixKeeps(b, d, '-');
  }

  /** Pieces found on either side of the character at k, each showing the same
      visible text as its side, are pieces of d and together show all of it. */
  lemma SplitAtDash(d: string, k: nat, a: string, b: string)
    requires k < |d| && !IsSpace(d[k])
    requires IsInfix(a, d[..k]) && Visible(a) == Visible(d[..k])
    requires IsInfix(b, d[k + 1..]) && Visible(b) == Visible(d[k + 1..])
    ensures d[k] !in d[..k] ==> d[k] !in a
    ensures IsInfix(a, d) && IsInfix(b, d)
    ensures Visible(d) == Visible(a) + [d[k]] + Visible(b)
  {
    VisibleAroundDash(d, k);
    InfixKeeps(a, d[..k], d[k]);
    InfixAround(d, k, a, b);
  }

  lemma InfixAround(d: string, k: nat, a: string, b: string)
    requires k < |d|
    requires IsInfix(a, d[..k]) && IsInfix(b, d[k + 1..])
    ensures IsInfix(a, d) && IsInfix(b, d)
  {
    InfixTransitive(a, d[..k], d, 0);
    InfixTransitive(b, d[k + 1..], d, k + 1);
  }

  lemma VisibleAroundDash(d: string, k: nat)
    requires k < |d| && !IsSpace(d[k])
    ensures Visible(d) == Visible(d[..k]) + [d[k]] + Visible(d[k + 1..])
  {
    assert d == d[..k] + d[k..];
    VisibleAppend(d[..k], d[k..]);
    assert d[k..][1..] == d[k + 1..];
    assert Visible(d[k..]) == [d[k]] + Visible(d[k + 1..]);
  }

  lemma InfixTransitive(a: string, b: string, c: string, off: nat)
    requires IsInfix(a, b)
    requires off + |b| <= |c| && c[off..off + |b|] == b
    ensures IsInfix(a, c)
  {
    var i :| InfixAt(a, b, i);
    forall k | 0 <= k < |a| ensures c[off + i + k] == a[k] {
      assert a[k] == b[i + k];
    }
    assert c[off + i..off + i + |a|] == a;
    assert InfixAt(a, c, off + i);
  }

  /** "\n".join(ls) */
  function JoinLines(ls: seq<string>): string {
    if ls == [] then "" else if |ls| == 1 then ls[0] else ls[0] + "\n" + JoinLines(ls[1..])
  }

  /** str.split('\n'): always at least one piece, "" gives [""]. */
  function SplitLines(t: string): (r: seq<string>)
    ensures |r| >= 1
    ensures forall i | 0 <= i < |r| :: '\n' !in r[i]
    ensures JoinLines(r) == t
    decreases |t|
  {
    if '\n' in t then
      var k := IndexOf(t, '\n');
      var rest := SplitLines(t[k + 1..]);
      assert t == t[..k] + "\n" + t[k + 1..];
      [t[..k]] + rest
    else
      [t]
  }

  /** Joining two non-empty lists of lines is joining each and putting a line
      feed between the two. */
  lemma {:induction false} JoinLinesAppend(a: seq<string>, b: seq<string>)
    requires |a| >= 1 && |b| >= 1
    ensures JoinLines(a + b) == JoinLines(a) + "\n" + JoinLines(b)
    decreases |a|
  {
    if |a| == 1 {
      assert (a + b)[1..] == b;
    } else {
      assert (a + b)[1..] == a[1..] + b;
      JoinLinesAppend(a[1..], b);
    }
  }

  /** The lines of two texts joined by a line feed are the lines of the first
      followed by the lines of the second. */
  lemma SplitLinesAppend(t1: string, t2: string)
    ensures SplitLines(t1 + "\n" + t2) == SplitLines(t1) + SplitLines(t2)
  {
    var a, b := SplitLines(t1), SplitLines(t2);
    JoinLinesAppend(a, b);
    assert forall i | 0 <= i < |a + b| :: '\n' !in (a + b)[i] by {
      forall i | 0 <= i < |a + b| ensures '\n' !in (a + b)[i] {
        if i < |a| { assert (a + b)[i] == a[i]; } else { assert (a + b)[i] == b[i - |a|]; }
      }
    }
    SplitLinesOfJoin(a + b);
  }

  /** Splitting undoes joining: the pieces of a text are recovered exactly. */
  lemma {:induction false} SplitLinesOfJoin(ls: seq<string>)
    requires |ls| >= 1
    requires forall i | 0 <= i < |ls| :: '\n' !in ls[i]
    ensures SplitLines(JoinLines(ls)) == ls
  {
    if |ls| > 1 {
      var t := JoinLines(ls);
      assert t == ls[0] + "\n" + JoinLines(ls[1..]);
      assert t[|ls[0]|] == '\n';
      assert t[..|ls[0]|] == ls[0];
      assert '\n' in t;
      assert IndexOf(t, '\n') == |ls[0]|;
      assert t[|ls[0]| + 1..] == JoinLines(ls[1..]);
      SplitLinesOfJoin(ls[1..]);
    }
  }
}
