/** Amount tokens as the statement patterns capture them
    (`[-]?\d+(?:\.\d+)?(?:,\d+)?`), the normalisation app.py applies to them,
    Python's float() on the result, and the rule that gives a movement its kind. */
module Amounts {
  import opened Options
  import opened Text

  predicate IsDigit(c: char) { '0' <= c <= '9' }

  predicate AllDigits(s: string) {
    forall i | 0 <= i < |s| :: IsDigit(s[i])
  }

  /** End of the run of digits that starts at i. */
  function DigitRun(s: string, i: nat): (j: nat)
    requires i <= |s|
    ensures i <= j <= |s| && AllDigits(s[i..j]) && (j == |s| || !IsDigit(s[j]))
    decreases |s| - i
  {
    if i < |s| && IsDigit(s[i]) then
      var j := DigitRun(s, i + 1);
      assert s[i..j] == [s[i]] + s[i + 1..j];
      j
    else i
  }

  lemma {:induction false} DigitRunIs(s: string, i: nat, j: nat)
    requires i <= j <= |s| && AllDigits(s[i..j]) && (j == |s| || !IsDigit(s[j]))
    ensures DigitRun(s, i) == j
    decreases j - i
  {
    if i < j {
      assert IsDigit(s[i..j][0]);
      assert s[i + 1..j] == s[i..j][1..];
      DigitRunIs(s, i + 1, j);
    }
  }

  /** `,\d+` and nothing after it. */
  predicate IsCommaTail(s: string) {
    |s| >= 2 && s[0] == ',' && AllDigits(s[1..])
  }

  /** `\d+(?:\.\d+)?(?:,\d+)?` matching all of u. */
  predicate IsUnsignedAmount(u: string) {
    var i := DigitRun(u, 0);
    i > 0 && AfterDigits(u, i)
  }

  /** What may follow the integer digits ending at i: nothing, `,\d+`, or
      `.\d+` and then optionally `,\d+`. */
  predicate AfterDigits(u: string, i: nat)
    requires i <= |u|
  {
    i == |u| || IsCommaTail(u[i..]) ||
    (u[i] == '.' && (var j := DigitRun(u, i + 1); j > i + 1 && (j == |u| || IsCommaTail(u[j..]))))
  }

  predicate IsNegative(s: string) { |s| > 0 && s[0] == '-' }

  function Unsigned(s: string): string { if IsNegative(s) then s[1..] else s }

  /** `[-]?\d+(?:\.\d+)?(?:,\d+)?` matching all of s. */
  predicate IsAmountToken(s: string) { Accepts(Start, s) }

  /** The states of the pattern's automaton: before anything, after the sign,
      in the integer digits, after '.', in the digits after '.', after ',' and
      in the digits after ','. */
  datatype AmountState = Start | Sign | Whole | Point | Fraction | Comma | Decimals

  predicate Accepting(st: AmountState) {
    st.Whole? || st.Fraction? || st.Decimals?
  }

  function Step(st: AmountState, c: char): Option<AmountState> {
    match st
    case Start => if c == '-' then Some(Sign) else if IsDigit(c) then Some(Whole) else None
    case Sign => if IsDigit(c) then Some(Whole) else None
    case Whole => if IsDigit(c) then Some(Whole) else if c == '.' then Some(Point) else if c == ',' then Some(Comma) else None
    case Point => if IsDigit(c) then Some(Fraction) else None
    case Fraction => if IsDigit(c) then Some(Fraction) else if c == ',' then Some(Comma) else None
    case Comma => if IsDigit(c) then Some(Decimals) else None
    case Decimals => if IsDigit(c) then Some(Decimals) else None
  }

  /** The automaton in state st accepts all of s. */
  predicate Accepts(st: AmountState, s: string)
    decreases |s|
  {
    if s == [] then Accepting(st)
    else
      match Step(st, s[0])
      case None => false
      case Some(next) => Accepts(next, s[1..])
  }


  function DigitValue(c: char): nat
    requires IsDigit(c)
  {
    (c as int - '0' as int) as nat
  }

  /** The number a string of decimal digits denotes. */
  function NatValue(ds: string): nat
    requires AllDigits(ds)
    decreases |ds|
  {
    if ds == [] then 0 else NatValue(ds[..|ds| - 1]) * 10 + DigitValue(ds[|ds| - 1])
  }

  /** The value of the digits ds written after a decimal point: 0.d1d2... */
  function FractionValue(ds: string): (r: real)
    requires AllDigits(ds)
    ensures 0.0 <= r < 1.0
  {
    if ds == [] then 0.0 else (DigitValue(ds[0]) as real + FractionValue(ds[1..])) / 10.0
  }

  /** The digits of s, in order. */
  function KeepDigits(s: string): (r: string)
    ensures AllDigits(r)
  {
    if s == [] then [] else (if IsDigit(s[0]) then [s[0]] else []) + KeepDigits(s[1..])
  }

  /** The magnitude an unsigned token stands for in the statements' locale:
      '.' only groups thousands, ',' starts the decimals. */
  function Magnitude(u: string): real {
    var whole := if ',' in u then u[..IndexOf(u, ',')] else u;
    var decimals := if ',' in u then u[IndexOf(u, ',') + 1..] else "";
    NatValue(KeepDigits(whole)) as real + FractionValue(KeepDigits(decimals))
  }

  /** The signed value of an amount token, independent of how app.py computes it. */
  function TokenValue(s: string): real {
    if IsNegative(s) then -Magnitude(Unsigned(s)) else Magnitude(Unsigned(s))
  }

  /** s.replace(c, ""). */
  function DeleteAll(s: string, c: char): (r: string)
    ensures |r| <= |s|
  {
    if s == [] then [] else (if s[0] == c then [] else [s[0]]) + DeleteAll(s[1..], c)
  }

  /** s.replace(a, b) for single characters. */
  function ReplaceAll(s: string, a: char, b: char): (r: string)
    ensures |r| == |s|
  {
    if s == [] then [] else [if s[0] == a then b else s[0]] + ReplaceAll(s[1..], a, b)
  }

  /** importe.replace(".", "").replace(",", ".") and the same for saldo. */
  function Normalize(token: string): string {
    ReplaceAll(DeleteAll(token, '.'), ',', '.')
  }

  /** Python's float() on a plain decimal literal without sign: digits,
      optionally a '.' and more digits, at least one digit in all. None stands
      for the ValueError float() raises. */
  function ParseUnsignedDecimal(t: string): (r: Option<real>)
    ensures r.Some? ==> r.value >= 0.0
  {
    var i := DigitRun(t, 0);
    if i == |t| then
      if i > 0 then assert t[0..i] == t; Some(NatValue(t) as real) else None
    else if t[i] == '.' && AllDigits(t[i + 1..]) && (i > 0 || i + 1 < |t|) then
      Some(NatValue(t[..i]) as real + FractionValue(t[i + 1..]))
    else None
  }

  /** Python's float() on a decimal literal with an optional sign. */
  function ParseFloat(t: string): (r: Option<real>)
    ensures r.Some? && r.value < 0.0 ==> IsNegative(t)
  {
    if |t| > 0 && (t[0] == '-' || t[0] == '+') then
      match ParseUnsignedDecimal(t[1..])
      case None => None
      case Some(v) => Some(if t[0] == '-' then -v else v)
    else
      ParseUnsignedDecimal(t)
  }

  /** tipo_movimiento */
  datatype MovementKind = Credit | Debit | Indeterminate {
    /** The text app.py stores for the kind. */
    function Label(): string {
      match this
      case Credit => "Crédito"
      case Debit => "Débito"
      case Indeterminate => "Indeterminado"
    }
  }

  datatype Classified = Classified(kind: MovementKind, amount: real)

  /** The try/except of app.py on a normalised amount: a value above zero is a
      credit, any other value a debit, negated unless the text starts with '-';
      a conversion failure is Indeterminado with amount 0. */
  function Classify(importe: string): (r: Classified)
    ensures r.kind == Indeterminate <==> ParseFloat(importe).None?
    ensures r.kind == Indeterminate ==> r.amount == 0.0
    ensures ParseFloat(importe).Some? ==> r.amount == ParseFloat(importe).value
    ensures r.kind == Credit <==> r.amount > 0.0
    ensures r.kind == Debit ==> r.amount <= 0.0
  {
    match ParseFloat(importe)
    case None => Classified(Indeterminate, 0.0)
    case Some(v) =>
      var kind := if v > 0.0 then Credit else Debit;
      Classified(kind, if kind == Debit && !IsNegative(importe) then -v else v)
  }

  // ---------------------------------------------------------------------------
  // Normalisation, character by character

  lemma {:induction false} DeleteAllAppend(a: string, b: string, c: char)
    ensures DeleteAll(a + b, c) == DeleteAll(a, c) + DeleteAll(b, c)
  {
    if a == [] {
      assert a + b == b;
    } else {
      var h := if a[0] == c then [] else [a[0]];
      calc {
        DeleteAll(a + b, c);
        { assert (a + b)[0] == a[0]; assert (a + b)[1..] == a[1..] + b; }
        h + DeleteAll(a[1..] + b, c);
        { DeleteAllAppend(a[1..], b, c); }
        h + (DeleteAll(a[1..], c) + DeleteAll(b, c));
        (h + DeleteAll(a[1..], c)) + DeleteAll(b, c);
      }
    }
  }

  /** DeleteAll leaves no c behind and keeps every other character, in order. */
  lemma {:induction false} DeleteAllRemoves(s: string, c: char)
    ensures c !in DeleteAll(s, c)
    ensures forall x | x != c :: multiset(DeleteAll(s, c))[x] == multiset(s)[x]
  {
    if s != [] {
      DeleteAllRemoves(s[1..], c);
      assert s == [s[0]] + s[1..];
    }
  }

  /** ReplaceAll changes exactly the occurrences of a, each into b. */
  lemma {:induction false} ReplaceAllAt(s: string, a: char, b: char)
    ensures forall i | 0 <= i < |s| :: ReplaceAll(s, a, b)[i] == (if s[i] == a then b else s[i])
  {
    if s != [] {
      ReplaceAllAt(s[1..], a, b);
      forall i | 1 <= i < |s| ensures ReplaceAll(s, a, b)[i] == (if s[i] == a then b else s[i]) {
        assert s[i] == s[1..][i - 1];
      }
    }
  }

  /** A normalised amount never holds a comma: every one became the decimal point. */
  lemma NormalizeHasNoComma(t: string)
    ensures ',' !in Normalize(t)
  {
    ReplaceAllAt(DeleteAll(t, '.'), ',', '.');
  }

  lemma ReplaceAllAppend(a: string, b: string, x: char, y: char)
    ensures ReplaceAll(a + b, x, y) == ReplaceAll(a, x, y) + ReplaceAll(b, x, y)
  {
    ReplaceAllAt(a + b, x, y);
    ReplaceAllAt(a, x, y);
    ReplaceAllAt(b, x, y);
    var l, r := ReplaceAll(a + b, x, y), ReplaceAll(a, x, y) + ReplaceAll(b, x, y);
    forall i | 0 <= i < |l| ensures l[i] == r[i] {
      if i >= |a| { assert (a + b)[i] == b[i - |a|]; }
    }
  }

  /** Normalising a text is normalising its pieces. */
  lemma NormalizeAppend(a: string, b: string)
    ensures Normalize(a + b) == Normalize(a) + Normalize(b)
  {
    DeleteAllAppend(a, b, '.');
    ReplaceAllAppend(DeleteAll(a, '.'), DeleteAll(b, '.'), ',', '.');
  }

  /** What Normalize does to one character: deletes '.', turns ',' into '.',
      keeps everything else. With NormalizeAppend this determines Normalize. */
  lemma NormalizeChar(c: char)
    ensures Normalize([c]) == if c == '.' then "" else if c == ',' then "." else [c]
  {
    assert [c][1..] == [];
  }

  lemma {:induction false} DeleteAllAbsent(s: string, c: char)
    requires c !in s
    ensures DeleteAll(s, c) == s
  {
    if s != [] {
      DeleteAllAbsent(s[1..], c);
      assert s == [s[0]] + s[1..];
    }
  }

  /** Deleting a character that occurs once cuts out that one position. */
  lemma DeleteAllOnce(s: string, c: char, i: nat)
    requires i < |s| && s[i] == c && c !in s[..i] && c !in s[i + 1..]
    ensures DeleteAll(s, c) == s[..i] + s[i + 1..]
  {
    assert s == s[..i] + s[i..];
    DeleteAllAppend(s[..i], s[i..], c);
    assert s[i..][1..] == s[i + 1..];
    assert DeleteAll(s[i..], c) == DeleteAll(s[i + 1..], c);
    DeleteAllAbsent(s[..i], c);
    DeleteAllAbsent(s[i + 1..], c);
  }

  lemma ReplaceAllAbsent(s: string, a: char, b: char)
    requires a !in s
    ensures ReplaceAll(s, a, b) == s
  {
    ReplaceAllAt(s, a, b);
  }

  /** Replacing a character that occurs once changes only that position. */
  lemma ReplaceAllOnce(s: string, a: char, b: char, i: nat)
    requires i < |s| && s[i] == a && a !in s[..i] && a !in s[i + 1..]
    ensures ReplaceAll(s, a, b) == s[i := b]
  {
    ReplaceAllAt(s, a, b);
    forall k | 0 <= k < |s| && k != i ensures s[k] != a {
      if k < i { assert s[k] == s[..i][k]; } else { assert s[k] == s[i + 1..][k - i - 1]; }
    }
  }

  lemma {:induction false} KeepDigitsAppend(a: string, b: string)
    ensures KeepDigits(a + b) == KeepDigits(a) + KeepDigits(b)
  {
    if a == [] {
      assert a + b == b;
    } else {
      assert (a + b)[1..] == a[1..] + b;
      KeepDigitsAppend(a[1..], b);
    }
  }

  lemma {:induction false} KeepDigitsOfDigits(ds: string)
    requires AllDigits(ds)
    ensures KeepDigits(ds) == ds
  {
    if ds != [] {
      KeepDigitsOfDigits(ds[1..]);
      assert ds == [ds[0]] + ds[1..];
    }
  }

  /** Between two runs of digits, KeepDigits drops the one character that is not one. */
  lemma KeepDigitsOnce(s: string, i: nat)
    requires i < |s| && !IsDigit(s[i]) && AllDigits(s[..i]) && AllDigits(s[i + 1..])
    ensures KeepDigits(s) == s[..i] + s[i + 1..]
  {
    assert s == s[..i] + s[i..];
    KeepDigitsAppend(s[..i], s[i..]);
    assert s[i..][1..] == s[i + 1..];
    assert KeepDigits(s[i..]) == KeepDigits(s[i + 1..]);
    KeepDigitsOfDigits(s[..i]);
    KeepDigitsOfDigits(s[i + 1..]);
  }

  // ---------------------------------------------------------------------------
  // float() on normalised tokens

  lemma ParseDigits(a: string)
    requires |a| > 0 && AllDigits(a)
    ensures ParseUnsignedDecimal(a) == Some(NatValue(a) as real)
  {
    DigitRunIs(a, 0, |a|);
    assert a[0..|a|] == a;
  }

  /** Digits, a point and digits: float() reads the whole part and the fraction. */
  lemma ParsePointed(t: string, i: nat)
    requires 0 < i < |t| && AllDigits(t[..i]) && t[i] == '.' && AllDigits(t[i + 1..])
    ensures ParseUnsignedDecimal(t) == Some(NatValue(t[..i]) as real + FractionValue(t[i + 1..]))
  {
    assert t[0..i] == t[..i];
    DigitRunIs(t, 0, i);
  }

  lemma MagnitudeWithoutComma(u: string)
    requires ',' !in u
    ensures Magnitude(u) == NatValue(KeepDigits(u)) as real
  {
    assert FractionValue(KeepDigits("")) == 0.0;
  }

  lemma MagnitudeWithComma(u: string, k: nat)
    requires k < |u| && u[k] == ',' && ',' !in u[..k]
    ensures Magnitude(u) == NatValue(KeepDigits(u[..k])) as real + FractionValue(KeepDigits(u[k + 1..]))
  {
    IndexOfIs(u, ',', k);
  }

  /** The normalised form of an unsigned token is a decimal literal that starts
      with a digit, and float() gives its magnitude. */
  lemma UnsignedTokenParses(u: string)
    requires IsUnsignedAmount(u)
    ensures |Normalize(u)| > 0 && IsDigit(Normalize(u)[0])
    ensures ParseUnsignedDecimal(Normalize(u)) == Some(Magnitude(u))
  {
    var i := DigitRun(u, 0);
    assert u[..i] == u[0..i];
    if i == |u| {
      assert u[0..i] == u;
      PlainDigits(u);
    } else if IsCommaTail(u[i..]) {
      DigitsCommaDigits(u, i);
    } else {
      var j := DigitRun(u, i + 1);
      if j == |u| {
        DigitsPointDigits(u, i);
      } else {
        DigitsPointDigitsCommaDigits(u, i, j);
      }
    }
  }

  /** `\d+` */
  lemma PlainDigits(u: string)
    requires |u| > 0 && AllDigits(u)
    ensures Normalize(u) == u
    ensures ParseUnsignedDecimal(Normalize(u)) == Some(Magnitude(u))
  {
    assert '.' !in u && ',' !in u;
    DeleteAllAbsent(u, '.');
    ReplaceAllAbsent(u, ',', '.');
    KeepDigitsOfDigits(u);
    MagnitudeWithoutComma(u);
    ParseDigits(u);
  }

  /** `\d+,\d+`: the comma becomes the decimal point. */
  lemma DigitsCommaDigits(u: string, i: nat)
    requires 0 < i < |u| && AllDigits(u[..i]) && IsCommaTail(u[i..])
    ensures Normalize(u) == u[i := '.']
    ensures ParseUnsignedDecimal(Normalize(u)) == Some(Magnitude(u))
  {
    NormalizeCommaTail(u, i);
    ParseCommaReplaced(u, i);
    MagnitudeCommaTail(u, i);
  }

  lemma NormalizeCommaTail(u: string, i: nat)
    requires 0 < i < |u| && AllDigits(u[..i]) && IsCommaTail(u[i..])
    ensures Normalize(u) == u[i := '.']
  {
    var f := u[i + 1..];
    assert f == u[i..][1..];
    assert ',' !in u[..i] && ',' !in f;
    assert '.' !in u by {
      forall k | 0 <= k < |u| ensures u[k] != '.' {
        if k < i { assert u[k] == u[..i][k]; } else if k > i { assert u[k] == f[k - i - 1]; }
      }
    }
    DeleteAllAbsent(u, '.');
    ReplaceAllOnce(u, ',', '.', i);
  }

  lemma ParseCommaReplaced(u: string, i: nat)
    requires 0 < i < |u| && AllDigits(u[..i]) && IsCommaTail(u[i..])
    ensures ParseUnsignedDecimal(u[i := '.']) == Some(NatValue(u[..i]) as real + FractionValue(u[i + 1..]))
  {
    var n := u[i := '.'];
    assert u[i + 1..] == u[i..][1..];
    assert n[..i] == u[..i] && n[i + 1..] == u[i + 1..];
    ParsePointed(n, i);
  }

  lemma MagnitudeCommaTail(u: string, i: nat)
    requires 0 < i < |u| && AllDigits(u[..i]) && IsCommaTail(u[i..])
    ensures Magnitude(u) == NatValue(u[..i]) as real + FractionValue(u[i + 1..])
  {
    assert u[i + 1..] == u[i..][1..];
    assert ',' !in u[..i];
    KeepDigitsOfDigits(u[..i]);
    KeepDigitsOfDigits(u[i + 1..]);
    MagnitudeWithComma(u, i);
  }

  /** `\d+\.\d+`: the point only groups thousands and disappears. */
  lemma DigitsPointDigits(u: string, i: nat)
    requires 0 < i && i + 1 < |u| && AllDigits(u[..i]) && u[i] == '.' && AllDigits(u[i + 1..])
    ensures Normalize(u) == u[..i] + u[i + 1..]
    ensures ParseUnsignedDecimal(Normalize(u)) == Some(Magnitude(u))
  {
    NormalizePointDigits(u, i);
    KeepDigitsOnce(u, i);
    assert ',' !in u by {
      forall k | 0 <= k < |u| ensures u[k] != ',' {
        if k < i { assert u[k] == u[..i][k]; } else if k > i { assert u[k] == u[i + 1..][k - i - 1]; }
      }
    }
    MagnitudeWithoutComma(u);
    ParseDigits(u[..i] + u[i + 1..]);
  }

  lemma NormalizePointDigits(u: string, i: nat)
    requires 0 < i && i + 1 < |u| && AllDigits(u[..i]) && u[i] == '.' && AllDigits(u[i + 1..])
    ensures AllDigits(u[..i] + u[i + 1..])
    ensures Normalize(u) == u[..i] + u[i + 1..]
  {
    var v := u[..i] + u[i + 1..];
    assert '.' !in u[..i] && '.' !in u[i + 1..];
    DeleteAllOnce(u, '.', i);
    assert AllDigits(v) by {
      forall k | 0 <= k < |v| ensures IsDigit(v[k]) {
        if k < i { assert v[k] == u[..i][k]; } else { assert v[k] == u[i + 1..][k - i]; }
      }
    }
    assert ',' !in v;
    ReplaceAllAbsent(v, ',', '.');
  }

  /** `\d+\.\d+,\d+`: the point disappears and the comma becomes the point. */
  lemma DigitsPointDigitsCommaDigits(u: string, i: nat, j: nat)
    requires 0 < i && i + 1 < j < |u| && AllDigits(u[..i]) && u[i] == '.' && AllDigits(u[i + 1..j])
    requires IsCommaTail(u[j..])
    ensures ParseUnsignedDecimal(Normalize(u)) == Some(Magnitude(u))
  {
    var v := GroupedHead(u, i, j);
    GroupedCommaValue(u, j, v);
  }

  /** Digits v before the comma once the points are gone, then `,\d+`. */
  lemma GroupedCommaValue(u: string, j: nat, v: string)
    requires |v| > 0 && AllDigits(v) && j < |u| && IsCommaTail(u[j..])
    requires Normalize(u[..j]) == v && KeepDigits(u[..j]) == v && ',' !in u[..j]
    ensures ParseUnsignedDecimal(Normalize(u)) == Some(Magnitude(u))
  {
    NormalizeGroupedComma(u, j, v);
    MagnitudeGroupedComma(u, j, v);
    PointedValue(Normalize(u), v, u[j + 1..]);
  }

  /** The digits before the comma of `\d+\.\d+,\d+`, with the point gone. */
  lemma GroupedHead(u: string, i: nat, j: nat) returns (v: string)
    requires 0 < i && i + 1 < j < |u| && AllDigits(u[..i]) && u[i] == '.' && AllDigits(u[i + 1..j])
    ensures |v| > 0 && AllDigits(v)
    ensures Normalize(u[..j]) == v && KeepDigits(u[..j]) == v && ',' !in u[..j]
  {
    var head := u[..j];
    assert head[..i] == u[..i] && head[i + 1..] == u[i + 1..j] && head[i] == '.';
    v := head[..i] + head[i + 1..];
    NormalizePointDigits(head, i);
    KeepDigitsOnce(head, i);
    assert ',' !in head by {
      forall k | 0 <= k < |head| ensures head[k] != ',' {
        if k < i { assert head[k] == head[..i][k]; } else if k > i { assert head[k] == head[i + 1..][k - i - 1]; }
      }
    }
  }

  lemma PointedValue(n: string, v: string, f: string)
    requires |v| > 0 && AllDigits(v) && AllDigits(f)
    requires |v| < |n| && n[..|v|] == v && n[|v|] == '.' && n[|v| + 1..] == f
    ensures ParseUnsignedDecimal(n) == Some(NatValue(v) as real + FractionValue(f))
  {
    ParsePointed(n, |v|);
  }

  lemma NormalizeGroupedComma(u: string, j: nat, v: string)
    requires j < |u| && Normalize(u[..j]) == v && IsCommaTail(u[j..])
    ensures |v| < |Normalize(u)| && Normalize(u)[..|v|] == v && Normalize(u)[|v|] == '.'
    ensures Normalize(u)[|v| + 1..] == u[j + 1..] && AllDigits(u[j + 1..])
  {
    var t := u[j..];
    assert u == u[..j] + t;
    NormalizeAppend(u[..j], t);
    CommaDigits(t);
    var n := v + t[0 := '.'];
    assert n[|v| + 1..] == t[1..];
    assert t[1..] == u[j + 1..];
  }

  lemma MagnitudeGroupedComma(u: string, j: nat, v: string)
    requires j < |u| && KeepDigits(u[..j]) == v && ',' !in u[..j] && IsCommaTail(u[j..])
    ensures Magnitude(u) == NatValue(v) as real + FractionValue(u[j + 1..])
  {
    assert u[j + 1..] == u[j..][1..];
    KeepDigitsOfDigits(u[j + 1..]);
    MagnitudeWithComma(u, j);
  }

  /** `,\d+` alone. */
  lemma CommaDigits(t: string)
    requires IsCommaTail(t)
    ensures Normalize(t) == t[0 := '.']
  {
    assert '.' !in t by {
      forall k | 0 <= k < |t| ensures t[k] != '.' {
        if k > 0 { assert t[k] == t[1..][k - 1]; }
      }
    }
    DeleteAllAbsent(t, '.');
    assert ',' !in t[1..];
    ReplaceAllOnce(t, ',', '.', 0);
  }

  // ---------------------------------------------------------------------------
  // The automaton accepts exactly the strings of the grammar

  lemma AllDigitsCons(s: string)
    requires s != []
    ensures AllDigits(s) <==> IsDigit(s[0]) && AllDigits(s[1..])
  {
    assert forall x | 0 <= x < |s[1..]| :: s[1..][x] == s[x + 1];
  }

  /** After ',' and a digit: `\d*`. */
  lemma {:induction false} DecimalsAccept(s: string)
    ensures Accepts(Decimals, s) <==> AllDigits(s)
    decreases |s|
  {
    if s != [] {
      DecimalsAccept(s[1..]);
      AllDigitsCons(s);
    }
  }

  /** After ',': `\d+`. */
  lemma CommaAccept(s: string)
    ensures Accepts(Comma, s) <==> |s| > 0 && AllDigits(s)
  {
    if s != [] {
      DecimalsAccept(s[1..]);
      AllDigitsCons(s);
    }
  }

  /** In the digits after '.': `\d*(?:,\d+)?`, read from position i of s. */
  lemma {:induction false} FractionAccept(s: string, i: nat)
    requires i <= |s|
    ensures Accepts(Fraction, s[i..]) <==> (DigitRun(s, i) == |s| || IsCommaTail(s[DigitRun(s, i)..]))
    decreases |s| - i
  {
    if i < |s| {
      assert s[i..][0] == s[i] && s[i..][1..] == s[i + 1..];
      if IsDigit(s[i]) {
        FractionAccept(s, i + 1);
      } else if s[i] == ',' {
        CommaAccept(s[i + 1..]);
      }
    }
  }

  /** In the integer digits: `\d*(?:\.\d+)?(?:,\d+)?`, read from position i of s. */
  lemma {:induction false} WholeAccept(s: string, i: nat)
    requires i <= |s|
    ensures Accepts(Whole, s[i..]) <==> AfterDigits(s, DigitRun(s, i))
    decreases |s| - i
  {
    if i < |s| {
      assert s[i..][0] == s[i] && s[i..][1..] == s[i + 1..];
      if IsDigit(s[i]) {
        WholeAccept(s, i + 1);
      } else if s[i] == ',' {
        CommaAccept(s[i + 1..]);
      } else if s[i] == '.' && i + 1 < |s| {
        assert s[i + 1..][0] == s[i + 1] && s[i + 1..][1..] == s[i + 2..];
        if IsDigit(s[i + 1]) {
          FractionAccept(s, i + 2);
        }
      }
    }
  }

  /** After the sign: the unsigned grammar. */
  lemma UnsignedAccept(u: string)
    ensures Accepts(Sign, u) <==> IsUnsignedAmount(u)
  {
    if u != [] && IsDigit(u[0]) {
      assert u[0..] == u;
      WholeAccept(u, 1);
    }
  }

  /** The automaton and the grammar `[-]?` followed by an unsigned amount agree. */
  lemma AmountTokenGrammar(s: string)
    ensures IsAmountToken(s) <==> IsUnsignedAmount(Unsigned(s))
  {
    if s != [] {
      if s[0] == '-' {
        UnsignedAccept(s[1..]);
      } else {
        UnsignedAccept(s);
      }
    }
  }

  /** Any captured amount token normalises to a literal float() accepts, and the
      number it gives is the token's value in the statements' locale. */
  lemma TokenNormalizesToItsValue(s: string)
    requires IsAmountToken(s)
    ensures ParseFloat(Normalize(s)) == Some(TokenValue(s))
  {
    var u := Unsigned(s);
    AmountTokenGrammar(s);
    UnsignedTokenParses(u);
    if IsNegative(s) {
      assert s == s[..1] + u;
      NormalizeAppend(s[..1], u);
      NormalizeChar(s[0]);
      assert s[..1] == [s[0]];
    }
  }

  /** For a captured token the Indeterminado branch is unreachable, the kind is
      Crédito exactly when the value is above zero, and the stored amount is the
      token's own signed value: the negation for debits only ever meets zero. */
  lemma MatchedAmountClassified(s: string)
    requires IsAmountToken(s)
    ensures Classify(Normalize(s)) == Classified(if TokenValue(s) > 0.0 then Credit else Debit, TokenValue(s))
  {
    TokenNormalizesToItsValue(s);
  }
}
