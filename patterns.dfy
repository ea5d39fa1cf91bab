/** The three regular expressions app.py applies to each line, as explicit
    matchers that try the alternatives in the order Python's backtracking engine
    does:

      provincia row          (\d{2}-\d{2}-\d{2})\s+(.*?)\s+(AMOUNT)\s+(\d{2}-\d{2})\s+(AMOUNT)
      provincia continuation ^(\s+)(.+?)\s+(AMOUNT)\s+(\d{2}-\d{2})\s+(AMOUNT)
      galicia row            (\d{2}/\d{2}/\d{4})\s+(.*?)\s+(AMOUNT)\s+(AMOUNT)

    with AMOUNT = [-]?\d+(?:\.\d+)?(?:,\d+)?, searched with re.search.

    The search tries every start from the left; at a start, the `\s+` after the
    date is greedy, so the description may begin at the end of that whitespace
    run first and then at each earlier position; the description itself is lazy,
    so it is tried shortest first. Everything after the description is forced:
    an amount followed by `\s+` is a whole run of non-whitespace, the `\s+` before
    a digit or '-' is a whole run of whitespace, and the last amount, followed by
    nothing, is the greedy one. */
module Patterns {
  import opened Options
  import opened Text
  import opened Amounts

  datatype Pattern = ProvinciaRow | ProvinciaContinuation | GaliciaRow {
    /** Width of the leading date group; the continuation pattern has none. */
    function DateWidth(): nat {
      match this
      case ProvinciaRow => 8
      case ProvinciaContinuation => 0
      case GaliciaRow => 10
    }

    /** `.+?` needs one character of description, `.*?` none. */
    function MinDescription(): nat {
      if this == ProvinciaContinuation then 1 else 0
    }

    /** The Provincia patterns carry a `\d{2}-\d{2}` value date before the balance. */
    predicate HasValueDate() {
      this != GaliciaRow
    }
  }

  /** Positions of what follows the description: the amount, the value date
      (equal to balanceStart where there is none) and the balance. */
  datatype TailMatch = TailMatch(amountStart: nat, amountEnd: nat, valueStart: nat, balanceStart: nat)

  /** Positions of one match: where it starts, the description, and the rest. */
  datatype RowMatch = RowMatch(start: nat, descStart: nat, descEnd: nat, tail: TailMatch)

  /** Every position in [i, j) holds whitespace. */
  predicate SpacesIn(s: string, i: nat, j: nat) {
    j <= |s| && forall k | i <= k < j :: IsSpace(s[k])
  }

  /** No position in [i, j) holds whitespace. */
  predicate WordIn(s: string, i: nat, j: nat) {
    j <= |s| && forall k | i <= k < j :: !IsSpace(s[k])
  }

  /** No position in [i, j) holds a line feed, so `.` can cross it. */
  predicate LineIn(s: string, i: nat, j: nat) {
    j <= |s| && forall k | i <= k < j :: s[k] != '\n'
  }

  /** `\d{2}-\d{2}-\d{2}` at p. */
  predicate DashDateAt(s: string, p: nat) {
    p + 8 <= |s| && IsDigit(s[p]) && IsDigit(s[p + 1]) && s[p + 2] == '-' && IsDigit(s[p + 3])
    && IsDigit(s[p + 4]) && s[p + 5] == '-' && IsDigit(s[p + 6]) && IsDigit(s[p + 7])
  }

  /** `\d{2}/\d{2}/\d{4}` at p. */
  predicate SlashDateAt(s: string, p: nat) {
    p + 10 <= |s| && IsDigit(s[p]) && IsDigit(s[p + 1]) && s[p + 2] == '/' && IsDigit(s[p + 3])
    && IsDigit(s[p + 4]) && s[p + 5] == '/' && IsDigit(s[p + 6]) && IsDigit(s[p + 7])
    && IsDigit(s[p + 8]) && IsDigit(s[p + 9])
  }

  /** `\d{2}-\d{2}` at p. */
  predicate ValueDateAt(s: string, p: nat) {
    p + 5 <= |s| && IsDigit(s[p]) && IsDigit(s[p + 1]) && s[p + 2] == '-' && IsDigit(s[p + 3]) && IsDigit(s[p + 4])
  }

  /** What comes before the first `\s+` of the pattern matches at p: the date
      group, or for the continuation pattern the `^` anchor. */
  predicate LeadAt(s: string, pat: Pattern, p: nat) {
    match pat
    case ProvinciaRow => DashDateAt(s, p)
    case ProvinciaContinuation => p == 0
    case GaliciaRow => SlashDateAt(s, p)
  }

  /** End of the run of whitespace that starts at i. */
  function SpaceRun(s: string, i: nat): (j: nat)
    requires i <= |s|
    ensures i <= j <= |s| && SpacesIn(s, i, j) && (j == |s| || !IsSpace(s[j]))
    decreases |s| - i
  {
    if i < |s| && IsSpace(s[i]) then SpaceRun(s, i + 1) else i
  }

  /** End of the run of non-whitespace that starts at i. */
  function WordRun(s: string, i: nat): (j: nat)
    requires i <= |s|
    ensures i <= j <= |s| && WordIn(s, i, j) && (j == |s| || IsSpace(s[j]))
    decreases |s| - i
  {
    if i < |s| && !IsSpace(s[i]) then WordRun(s, i + 1) else i
  }

  /** Position of the first line feed at or after i, or the end of s: how far
      `.` can reach from i. */
  function LineEnd(s: string, i: nat): (j: nat)
    requires i <= |s|
    ensures i <= j <= |s| && LineIn(s, i, j) && (j == |s| || s[j] == '\n')
    decreases |s| - i
  {
    if i < |s| && s[i] != '\n' then LineEnd(s, i + 1) else i
  }

  /** AMOUNT at i followed by nothing in particular: greedy everywhere, so the
      sign is taken when present, then the longest digit run, then `.\d+` and
      `,\d+` when they can be taken. What it takes is the longest amount token
      at i. */
  function GreedyAmount(s: string, i: nat): (r: Option<nat>)
    requires i <= |s|
    ensures r.Some? <==> AmountStartsAt(s, i)
    ensures r.Some? ==> i < r.value <= |s| && IsAmountToken(s[i..r.value])
    ensures r.Some? ==> forall j | i <= j <= |s| && IsAmountToken(s[i..j]) :: j <= r.value
  {
    var k := if i < |s| && s[i] == '-' then i + 1 else i;
    var d := DigitRun(s, k);
    if d == k then None
    else
      var e := PointEnd(s, d);
      var f := CommaEnd(s, e);
      GreedyAmountShape(s, i, k, d, e, f);
      LongestToken(s, i, k, f);
      Some(f)
  }

  /** Where the greedy `(?:\.\d+)?` after the digits ending at d stops. */
  function PointEnd(s: string, d: nat): (e: nat)
    requires d <= |s|
    ensures d <= e <= |s|
  {
    if d + 1 < |s| && s[d] == '.' && DigitRun(s, d + 1) > d + 1 then DigitRun(s, d + 1) else d
  }

  /** Where the greedy `(?:,\d+)?` after position e stops. */
  function CommaEnd(s: string, e: nat): (f: nat)
    requires e <= |s|
    ensures e <= f <= |s|
  {
    if e + 1 < |s| && s[e] == ',' && DigitRun(s, e + 1) > e + 1 then DigitRun(s, e + 1) else e
  }

  /** An amount can start at i: a digit, or '-' and a digit. The last group of
      each pattern is followed by nothing, so this is all the pattern needs of
      it; what the group captures is the greedy amount there. */
  predicate AmountStartsAt(s: string, i: nat) {
    i < |s| && (IsDigit(s[i]) || (s[i] == '-' && i + 1 < |s| && IsDigit(s[i + 1])))
  }

  /** The shape of what follows the description at d, as the pattern describes it. */
  predicate TailShape(s: string, pat: Pattern, d: nat, t: TailMatch) {
    d < t.amountStart < t.amountEnd < t.valueStart <= t.balanceStart <= |s|
    && SpacesIn(s, d, t.amountStart) && IsAmountToken(s[t.amountStart..t.amountEnd])
    && SpacesIn(s, t.amountEnd, t.valueStart)
    && (if pat.HasValueDate() then
          ValueDateAt(s, t.valueStart) && t.valueStart + 5 < t.balanceStart
          && SpacesIn(s, t.valueStart + 5, t.balanceStart)
        else t.valueStart == t.balanceStart)
    && AmountStartsAt(s, t.balanceStart)
  }

  /** `\s+(AMOUNT)\s+(\d{2}-\d{2})\s+(AMOUNT)` (or without the value date) at d. */
  function Tail(s: string, pat: Pattern, d: nat): (r: Option<TailMatch>)
    requires d <= |s|
    ensures r.Some? ==> TailShape(s, pat, d, r.value)
  {
    if d < |s| && IsSpace(s[d]) then
      var a := SpaceRun(s, d);
      var b := WordRun(s, a);
      if a < b < |s| && IsAmountToken(s[a..b]) then
        var v := SpaceRun(s, b);
        if pat.HasValueDate() then
          if ValueDateAt(s, v) && v + 5 < |s| && IsSpace(s[v + 5]) then
            var c := SpaceRun(s, v + 5);
            if AmountStartsAt(s, c) then Some(TailMatch(a, b, v, c)) else None
          else None
        else if AmountStartsAt(s, v) then Some(TailMatch(a, b, v, v))
        else None
      else None
    else None
  }

  /** The shape of a whole match, as the pattern describes it. */
  predicate RowShape(s: string, pat: Pattern, m: RowMatch) {
    var q := m.start + pat.DateWidth();
    LeadAt(s, pat, m.start) && q < m.descStart <= m.descEnd <= |s|
    && SpacesIn(s, q, m.descStart)
    && m.descEnd - m.descStart >= pat.MinDescription() && LineIn(s, m.descStart, m.descEnd)
    && TailShape(s, pat, m.descEnd, m.tail)
  }

  /** The description starting at d0 may end at k: it is long enough and the
      rest of the pattern matches from k. */
  predicate DescriptionEndOk(s: string, pat: Pattern, d0: nat, k: nat) {
    d0 <= k <= |s| && k - d0 >= pat.MinDescription() && Tail(s, pat, k).Some?
  }

  /** Index of the first candidate that succeeds, or |c| when none does: the
      engine tries the alternatives of a group in a fixed order and keeps the
      first one after which the whole pattern matches. */
  function FirstTrue(c: seq<bool>): (i: nat)
    ensures i <= |c| && (i < |c| ==> c[i])
    ensures forall j | 0 <= j < i :: !c[j]
    decreases |c|
  {
    if c == [] then 0 else if c[0] then 0 else 1 + FirstTrue(c[1..])
  }

  /** Whether the description starting at d0 may end at each position up to
      the first line feed, which `.` does not cross; the lazy description tries
      them from the left. */
  function EndsTried(s: string, pat: Pattern, d0: nat): seq<bool>
    requires d0 <= |s|
  {
    seq(LineEnd(s, d0) + 1, (k: nat) => DescriptionEndOk(s, pat, d0, k))
  }

  /** The lazy description starting at d0: the shortest one after which the
      rest of the pattern matches, without crossing a line feed. */
  function LazyFrom(s: string, pat: Pattern, p: nat, d0: nat): (r: Option<RowMatch>)
    requires d0 <= |s|
    ensures r.Some? ==> r.value.start == p && r.value.descStart == d0 && d0 <= r.value.descEnd <= LineEnd(s, d0)
    ensures r.Some? ==> DescriptionEndOk(s, pat, d0, r.value.descEnd) && r.value.tail == Tail(s, pat, r.value.descEnd).value
  {
    var ends := EndsTried(s, pat, d0);
    var k := FirstTrue(ends);
    if k < |ends| then Some(RowMatch(p, d0, k, Tail(s, pat, k).value)) else None
  }

  /** Index of the last candidate that succeeds, if any. */
  function LastTrue(c: seq<bool>): (r: Option<nat>)
    ensures r.Some? ==> r.value < |c| && c[r.value]
    decreases |c|
  {
    if c == [] then None else if c[|c| - 1] then Some(|c| - 1) else LastTrue(c[..|c| - 1])
  }

  /** No candidate that succeeds lies beyond the one LastTrue finds. */
  lemma {:induction false} LastTrueMax(c: seq<bool>, k: nat)
    requires k < |c| && c[k]
    ensures LastTrue(c).Some? && k <= LastTrue(c).value
    decreases |c|
  {
    if k < |c| - 1 && !c[|c| - 1] {
      var c' := c[..|c| - 1];
      assert c'[k] == c[k];
      LastTrueMax(c', k);
    }
  }

  /** Whether the lazy description matches from each start the greedy `\s+`
      between q and e can leave it; the engine tries them from the right, e
      first, down to q + 1. */
  function StartsTried(s: string, pat: Pattern, p: nat, q: nat, e: nat): seq<bool>
    requires q <= e <= |s|
  {
    seq(e + 1, (j: nat) => q < j <= e && LazyFrom(s, pat, p, j).Some?)
  }

  /** The pattern tried at start p. */
  function MatchAt(s: string, pat: Pattern, p: nat): (r: Option<RowMatch>)
    requires p <= |s|
    ensures r.Some? ==> r.value.start == p && RowShape(s, pat, r.value)
  {
    if LeadAt(s, pat, p) then
      var q := p + pat.DateWidth();
      var e := SpaceRun(s, q);
      var j := LastTrue(StartsTried(s, pat, p, q, e));
      if j.Some? then LazyFrom(s, pat, p, j.value) else None
    else None
  }

  /** The starts re.search tries, from the left. */
  function PositionsTried(s: string, pat: Pattern): seq<bool> {
    seq(|s| + 1, (i: nat) => i <= |s| && MatchAt(s, pat, i).Some?)
  }

  /** re.search(pattern, line) for one of the three patterns: the match at the
      leftmost start where the pattern matches (for the anchored continuation
      pattern that can only be 0). */
  function Find(s: string, pat: Pattern): (r: Option<RowMatch>)
    ensures r.Some? ==> RowShape(s, pat, r.value)
  {
    var i := FirstTrue(PositionsTried(s, pat));
    if i <= |s| then MatchAt(s, pat, i) else None
  }

  /** The groups of a match, as match.groups() gives them; the continuation
      pattern's first group (the leading whitespace) is not used, and stands
      here as the empty date. */
  datatype Groups = Groups(date: string, description: string, amount: string, balance: string)

  /** The groups are the pieces of the line at the match's positions: the date
      of the pattern's shape, the description, the amount token, and the
      longest amount token at the balance's start. */
  function GroupsOf(s: string, pat: Pattern, m: RowMatch): (g: Groups)
    requires RowShape(s, pat, m)
    ensures g.date == s[m.start..m.start + pat.DateWidth()]
    ensures pat == ProvinciaRow ==> DashDateAt(g.date, 0)
    ensures pat == GaliciaRow ==> SlashDateAt(g.date, 0)
    ensures g.description == s[m.descStart..m.descEnd]
    ensures |g.description| >= pat.MinDescription() && '\n' !in g.description
    ensures g.amount == s[m.tail.amountStart..m.tail.amountEnd] && IsAmountToken(g.amount)
    ensures IsAmountToken(g.balance) && m.tail.balanceStart + |g.balance| <= |s|
    ensures g.balance == s[m.tail.balanceStart..m.tail.balanceStart + |g.balance|]
    ensures forall j | m.tail.balanceStart <= j <= |s| && IsAmountToken(s[m.tail.balanceStart..j])
              :: j <= m.tail.balanceStart + |g.balance|
  {
    var balanceEnd := GreedyAmount(s, m.tail.balanceStart).value;
    var description := s[m.descStart..m.descEnd];
    DateGroup(s, pat, m.start);
    LineGroup(s, m.descStart, m.descEnd);
    Groups(s[m.start..m.start + pat.DateWidth()], description,
           s[m.tail.amountStart..m.tail.amountEnd], s[m.tail.balanceStart..balanceEnd])
  }

  /** The date group has the shape of the pattern's date. */
  lemma DateGroup(s: string, pat: Pattern, p: nat)
    requires LeadAt(s, pat, p)
    ensures p + pat.DateWidth() <= |s|
    ensures pat == ProvinciaRow ==> DashDateAt(s[p..p + 8], 0)
    ensures pat == GaliciaRow ==> SlashDateAt(s[p..p + 10], 0)
  {
  }

  /** A piece of the line without a line feed. */
  lemma LineGroup(s: string, i: nat, j: nat)
    requires i <= j && LineIn(s, i, j)
    ensures '\n' !in s[i..j]
  {
    assert forall k | 0 <= k < j - i :: s[i..j][k] == s[i + k];
  }

  /** re.search(pattern, line) and, when it matches, its groups(). */
  function Search(s: string, pat: Pattern): (r: Option<Groups>)
    ensures r.Some? <==> Find(s, pat).Some?
    ensures r.Some? ==> r.value == GroupsOf(s, pat, Find(s, pat).value)
    ensures r.Some? ==> IsAmountToken(r.value.amount) && IsAmountToken(r.value.balance)
    ensures r.Some? ==> |r.value.date| == pat.DateWidth() && |r.value.description| >= pat.MinDescription()
  {
    match Find(s, pat)
    case Some(m) => Some(GroupsOf(s, pat, m))
    case None => None
  }

  // ---------------------------------------------------------------------------
  // The order in which the engine tries the alternatives

  /** The lazy description is the shortest that works. */
  lemma LazyShortest(s: string, pat: Pattern, p: nat, d0: nat, k: nat)
    requires d0 <= |s| && LazyFrom(s, pat, p, d0).Some? && d0 <= k < LazyFrom(s, pat, p, d0).value.descEnd
    ensures !DescriptionEndOk(s, pat, d0, k)
  {
    assert !EndsTried(s, pat, d0)[k];
  }

  /** Any description end within the line that works is found. */
  lemma LazyComplete(s: string, pat: Pattern, p: nat, d0: nat, k: nat)
    requires d0 <= k <= |s| && k <= LineEnd(s, d0) && DescriptionEndOk(s, pat, d0, k)
    ensures LazyFrom(s, pat, p, d0).Some? && LazyFrom(s, pat, p, d0).value.descEnd <= k
  {
    assert EndsTried(s, pat, d0)[k];
  }

  /** The greedy lead gives back as little as it can: no later description
      start within the whitespace run lets the rest match. */
  lemma LeadLongest(s: string, pat: Pattern, p: nat, k: nat)
    requires p <= |s| && MatchAt(s, pat, p).Some?
    requires MatchAt(s, pat, p).value.descStart < k <= SpaceRun(s, p + pat.DateWidth())
    ensures LazyFrom(s, pat, p, k).None?
  {
    MatchAtLead(s, pat, p);
    var c := StartsTried(s, pat, p, p + pat.DateWidth(), SpaceRun(s, p + pat.DateWidth()));
    var j := LastTrue(c);
    assert j.Some? && MatchAt(s, pat, p).value.descStart == j.value;
    assert c[j.value];
    if c[k] {
      LastTrueMax(c, k);
    }
  }

  /** MatchAt at a start where the date (and the anchor) allow a match: the
      match from the rightmost description start that works. */
  lemma MatchAtLead(s: string, pat: Pattern, p: nat)
    requires LeadAt(s, pat, p)
    ensures p + pat.DateWidth() <= |s|
    ensures var j := LastTrue(StartsTried(s, pat, p, p + pat.DateWidth(), SpaceRun(s, p + pat.DateWidth())));
            MatchAt(s, pat, p) == if j.Some? then LazyFrom(s, pat, p, j.value) else None
  {
  }

  /** Where the lazy description matches from a start within the whitespace
      run after the date, the pattern matches at p. */
  lemma LeadComplete(s: string, pat: Pattern, p: nat, k: nat)
    requires LeadAt(s, pat, p)
    requires p + pat.DateWidth() < k <= SpaceRun(s, p + pat.DateWidth()) && LazyFrom(s, pat, p, k).Some?
    ensures MatchAt(s, pat, p).Some? && k <= MatchAt(s, pat, p).value.descStart
  {
    MatchAtLead(s, pat, p);
    var c := StartsTried(s, pat, p, p + pat.DateWidth(), SpaceRun(s, p + pat.DateWidth()));
    assert c[k];
    LastTrueMax(c, k);
  }

  /** re.search returns the match at the leftmost start. */
  lemma FindLeftmost(s: string, pat: Pattern, j: nat)
    requires Find(s, pat).Some? && j < Find(s, pat).value.start
    ensures MatchAt(s, pat, j).None?
  {
    assert !PositionsTried(s, pat)[j];
  }

  /** Where the pattern matches at some start, re.search finds a match no later. */
  lemma SearchComplete(s: string, pat: Pattern, j: nat)
    requires j <= |s| && MatchAt(s, pat, j).Some?
    ensures Find(s, pat).Some? && Find(s, pat).value.start <= j
  {
    assert PositionsTried(s, pat)[j];
  }

  // ---------------------------------------------------------------------------
  // Soundness of the greedy amount

  /** No amount token at i reaches beyond the greedy one. */
  lemma LongestToken(s: string, i: nat, k: nat, f: nat)
    requires i <= k <= |s| && k == (if i < |s| && s[i] == '-' then i + 1 else i)
    requires DigitRun(s, k) > k && f == CommaEnd(s, PointEnd(s, DigitRun(s, k)))
    ensures forall j | i <= j <= |s| && IsAmountToken(s[i..j]) :: j <= f
  {
    forall j | i <= j <= |s| && IsAmountToken(s[i..j]) ensures j <= f {
      TokenBound(s, i, k, f, j);
    }
  }

  /** One token at i: it ends within the greedy one. */
  lemma TokenBound(s: string, i: nat, k: nat, f: nat, j: nat)
    requires i <= k <= |s| && k == (if i < |s| && s[i] == '-' then i + 1 else i)
    requires DigitRun(s, k) > k && f == CommaEnd(s, PointEnd(s, DigitRun(s, k)))
    requires i <= j <= |s| && IsAmountToken(s[i..j])
    ensures j <= f
  {
    assert s[i..j] != [];
    SliceStep(s, i, j);
    if s[i] == '-' {
      assert Accepts(Sign, s[i + 1..j]);
      assert s[i + 1..j] != [];
      SliceStep(s, i + 1, j);
      NextDigitRun(s, i + 1);
      WholeBound(s, i + 2, j);
    } else {
      NextDigitRun(s, i);
      WholeBound(s, i + 1, j);
    }
  }

  lemma NextDigitRun(s: string, x: nat)
    requires x < |s| && IsDigit(s[x])
    ensures DigitRun(s, x) == DigitRun(s, x + 1)
  {
  }

  /** One character of the automaton's input, read from s at x. */
  lemma SliceStep(s: string, x: nat, j: nat)
    requires x < j <= |s|
    ensures s[x..j][0] == s[x] && s[x..j][1..] == s[x + 1..j]
  {
  }

  /** In the digits after ',': up to the end of the digit run. */
  lemma {:induction false} DecimalsBound(s: string, x: nat, j: nat)
    requires x <= j <= |s| && Accepts(Decimals, s[x..j])
    ensures j <= DigitRun(s, x)
    decreases j - x
  {
    if x < j {
      SliceStep(s, x, j);
      NextDigitRun(s, x);
      DecimalsBound(s, x + 1, j);
    }
  }

  /** After ',': at least one digit, and no further than the digit run. */
  lemma CommaBound(s: string, x: nat, j: nat)
    requires x <= j <= |s| && Accepts(Comma, s[x..j])
    ensures x < j && IsDigit(s[x]) && j <= DigitRun(s, x)
  {
    SliceStep(s, x, j);
    NextDigitRun(s, x);
    DecimalsBound(s, x + 1, j);
  }

  /** In the digits after '.': up to the greedy `,\d+` after them. */
  lemma {:induction false} FractionBound(s: string, x: nat, j: nat)
    requires x <= j <= |s| && Accepts(Fraction, s[x..j])
    ensures j <= CommaEnd(s, DigitRun(s, x))
    decreases j - x
  {
    if x < j {
      SliceStep(s, x, j);
      if IsDigit(s[x]) {
        NextDigitRun(s, x);
        FractionBound(s, x + 1, j);
      } else {
        CommaBound(s, x + 1, j);
      }
    }
  }

  /** In the integer digits: up to the greedy `.\d+` and `,\d+` after them. */
  lemma {:induction false} WholeBound(s: string, x: nat, j: nat)
    requires x <= j <= |s| && Accepts(Whole, s[x..j])
    ensures j <= CommaEnd(s, PointEnd(s, DigitRun(s, x)))
    decreases j - x
  {
    if x < j {
      SliceStep(s, x, j);
      if IsDigit(s[x]) {
        NextDigitRun(s, x);
        WholeBound(s, x + 1, j);
      } else if s[x] == '.' {
        SliceStep(s, x + 1, j);
        NextDigitRun(s, x + 1);
        FractionBound(s, x + 2, j);
      } else {
        CommaBound(s, x + 1, j);
      }
    }
  }

  lemma GreedyAmountShape(s: string, i: nat, k: nat, d: nat, e: nat, f: nat)
    requires i <= k <= i + 1 && k < d <= e <= f <= |s| && (k == i + 1 ==> s[i] == '-')
    requires AllDigits(s[k..d])
    requires d < e ==> s[d] == '.' && e > d + 1 && AllDigits(s[d + 1..e])
    requires e < f ==> s[e] == ',' && f > e + 1 && AllDigits(s[e + 1..f])
    ensures IsAmountToken(s[i..f])
  {
    UnsignedRunsIn(s, k, d, e, f);
    var t := s[i..f];
    if k == i + 1 {
      assert t[0] == '-' && t[1..] == s[k..f];
    } else {
      assert t == s[k..f];
    }
    AmountTokenGrammar(t);
  }

  /** Digits in [k, d), optionally `.` and digits up to e, optionally `,` and
      digits up to f: an unsigned amount. */
  lemma UnsignedRunsIn(s: string, k: nat, d: nat, e: nat, f: nat)
    requires k < d <= e <= f <= |s|
    requires AllDigits(s[k..d])
    requires d < e ==> s[d] == '.' && e > d + 1 && AllDigits(s[d + 1..e])
    requires e < f ==> s[e] == ',' && f > e + 1 && AllDigits(s[e + 1..f])
    ensures IsUnsignedAmount(s[k..f])
  {
    var u := s[k..f];
    SliceOfSlice(s, k, f, 0, d - k);
    if d < e {
      assert u[d - k] == s[d];
      SliceOfSlice(s, k, f, d - k + 1, e - k);
    }
    if e < f {
      assert u[e - k] == s[e];
      SliceOfSlice(s, k, f, e - k + 1, f - k);
      assert u[e - k + 1..] == u[e - k + 1..f - k];
    }
    UnsignedAmountFromRuns(u, d - k, e - k);
  }

  lemma SliceOfSlice(s: string, i: nat, j: nat, a: nat, b: nat)
    requires i <= j <= |s| && a <= b <= j - i
    ensures s[i..j][a..b] == s[i + a..i + b]
  {
    assert forall x | 0 <= x < b - a :: s[i..j][a..b][x] == s[i + a..i + b][x];
  }

  /** Digits up to a, optionally `.` and digits up to b, optionally `,` and
      digits to the end: an unsigned amount. */
  lemma UnsignedAmountFromRuns(u: string, a: nat, b: nat)
    requires 0 < a <= b <= |u| && AllDigits(u[..a])
    requires a < b ==> u[a] == '.' && b > a + 1 && AllDigits(u[a + 1..b])
    requires b < |u| ==> u[b] == ',' && |u| > b + 1 && AllDigits(u[b + 1..])
    ensures IsUnsignedAmount(u)
  {
    assert u[0..a] == u[..a];
    DigitRunIs(u, 0, a);
    if a < b {
      DigitRunIs(u, a + 1, b);
    }
    if b < |u| {
      assert u[b..][1..] == u[b + 1..];
    }
  }

  // ---------------------------------------------------------------------------
  // Completeness: a line holding the shape is matched, at the leftmost start

  lemma {:induction false} SpaceRunIs(s: string, i: nat, j: nat)
    requires i <= j && SpacesIn(s, i, j) && (j == |s| || !IsSpace(s[j]))
    ensures SpaceRun(s, i) == j
    decreases j - i
  {
    if i < j {
      SpaceRunIs(s, i + 1, j);
    }
  }

  lemma {:induction false} WordRunIs(s: string, i: nat, j: nat)
    requires i <= j && WordIn(s, i, j) && (j == |s| || IsSpace(s[j]))
    ensures WordRun(s, i) == j
    decreases j - i
  {
    if i < j {
      WordRunIs(s, i + 1, j);
    }
  }

  lemma {:induction false} SpaceRunReaches(s: string, i: nat, j: nat)
    requires i <= j && SpacesIn(s, i, j)
    ensures SpaceRun(s, i) >= j
    decreases j - i
  {
    if i < j {
      SpaceRunReaches(s, i + 1, j);
    }
  }

  lemma {:induction false} LineEndReaches(s: string, i: nat, j: nat)
    requires i <= j && LineIn(s, i, j)
    ensures LineEnd(s, i) >= j
    decreases j - i
  {
    if i < j {
      LineEndReaches(s, i + 1, j);
    }
  }

  /** Only digits, '.', ',' and '-' make up an amount. */
  predicate AmountChar(c: char) {
    IsDigit(c) || c == '.' || c == ',' || c == '-'
  }

  /** Whatever the automaton accepts is made of amount characters. */
  lemma {:induction false} AcceptedChars(st: AmountState, s: string)
    requires Accepts(st, s)
    ensures forall x | 0 <= x < |s| :: AmountChar(s[x])
    decreases |s|
  {
    if s != [] {
      AcceptedChars(Step(st, s[0]).value, s[1..]);
      forall x | 0 < x < |s| ensures AmountChar(s[x]) {
        assert s[x] == s[1..][x - 1];
      }
    }
  }

  /** An amount token in s is a run of non-whitespace at which an amount starts. */
  lemma TokenIsWord(s: string, a: nat, b: nat)
    requires a < b <= |s| && IsAmountToken(s[a..b])
    ensures WordIn(s, a, b) && AmountStartsAt(s, a)
  {
    var u := s[a..b];
    AcceptedChars(Start, u);
    assert forall k | a <= k < b :: s[k] == u[k - a];
    if u[0] == '-' {
      assert Accepts(Sign, u[1..]);
      assert u[1..][0] == u[1];
    }
  }

  /** What follows the description is forced: where the shape holds at d, the
      matcher finds exactly it. */
  lemma TailComplete(s: string, pat: Pattern, d: nat, t: TailMatch)
    requires TailShape(s, pat, d, t)
    ensures Tail(s, pat, d) == Some(t)
  {
    TokenIsWord(s, t.amountStart, t.amountEnd);
    SpaceRunIs(s, d, t.amountStart);
    WordRunIs(s, t.amountStart, t.amountEnd);
    SpaceRunIs(s, t.amountEnd, t.valueStart);
    if pat.HasValueDate() {
      SpaceRunIs(s, t.valueStart + 5, t.balanceStart);
      DatedTail(s, pat, d, t);
    } else {
      UndatedTail(s, pat, d, t);
    }
  }

  /** Tail with the runs around the amount already found, value date present. */
  lemma DatedTail(s: string, pat: Pattern, d: nat, t: TailMatch)
    requires pat.HasValueDate() && TailShape(s, pat, d, t)
    requires SpaceRun(s, d) == t.amountStart && WordRun(s, t.amountStart) == t.amountEnd
    requires SpaceRun(s, t.amountEnd) == t.valueStart && SpaceRun(s, t.valueStart + 5) == t.balanceStart
    ensures Tail(s, pat, d) == Some(t)
  {
  }

  /** Tail with the runs around the amount already found, no value date. */
  lemma UndatedTail(s: string, pat: Pattern, d: nat, t: TailMatch)
    requires !pat.HasValueDate() && TailShape(s, pat, d, t)
    requires SpaceRun(s, d) == t.amountStart && WordRun(s, t.amountStart) == t.amountEnd
    requires SpaceRun(s, t.amountEnd) == t.valueStart
    ensures Tail(s, pat, d) == Some(t)
  {
  }

  /** The matcher at a start misses no match of the shape there. */
  lemma MatchComplete(s: string, pat: Pattern, m: RowMatch)
    requires RowShape(s, pat, m)
    ensures MatchAt(s, pat, m.start).Some?
  {
    DescriptionComplete(s, pat, m);
    LeadComplete(s, pat, m.start, m.descStart);
  }

  /** The lazy description from the start of a match of the shape succeeds,
      and that start is one the greedy lead tries. */
  lemma DescriptionComplete(s: string, pat: Pattern, m: RowMatch)
    requires RowShape(s, pat, m)
    ensures LeadAt(s, pat, m.start)
    ensures m.start + pat.DateWidth() < m.descStart <= SpaceRun(s, m.start + pat.DateWidth())
    ensures LazyFrom(s, pat, m.start, m.descStart).Some?
  {
    SpaceRunReaches(s, m.start + pat.DateWidth(), m.descStart);
    TailComplete(s, pat, m.descEnd, m.tail);
    LineEndReaches(s, m.descStart, m.descEnd);
    LazyComplete(s, pat, m.start, m.descStart, m.descEnd);
  }

  /** re.search finds a match exactly when the line holds the pattern's shape
      somewhere, and the match it finds starts leftmost. */
  lemma FindComplete(s: string, pat: Pattern, m: RowMatch)
    requires RowShape(s, pat, m)
    ensures Find(s, pat).Some? && Find(s, pat).value.start <= m.start
  {
    MatchComplete(s, pat, m);
    SearchComplete(s, pat, m.start);
  }
}
