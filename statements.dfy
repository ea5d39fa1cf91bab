/** The two statement parsers of app.py: the text is split into lines, each
    line is searched with the bank's pattern, and every match becomes one
    transaction record, appended in line order. The Banco Provincia parser also
    keeps the date of the last dated row (ultima_fecha) and gives it to the
    undated continuation rows that follow. */
module Statements {
  import opened Options
  import opened Text
  import opened Amounts
  import opened Patterns

  /** One entry of the list the parsers return (fecha, descripcion, detalle,
      importe, saldo, tipo_movimiento). */
  datatype Transaction = Transaction(date: string, description: string, detail: string,
                                     amount: real, balance: real, kind: MovementKind)

  /** Text as the clean-up leaves it: no whitespace at either end, no two
      whitespace characters in a row, and only plain spaces. */
  predicate CleanText(s: string) {
    NoEdgeSpace(s) && NoDoubleSpace(s) && PlainSpacesOnly(s)
  }

  /** The description group cleaned up and split at its first '-': the
      description is " ".join of the words before that '-', the detail the same
      of the words after it; with no '-' the detail is empty and the description
      is " ".join of all the words. */
  function Describe(group: string): (r: (string, string))
    ensures CleanText(r.0) && CleanText(r.1) && '-' !in r.0
    ensures '-' !in group ==> r == (JoinWords(Words(group)), "")
    ensures forall k | 0 <= k < |group| && group[k] == '-' && '-' !in group[..k] ::
              r == (JoinWords(Words(group[..k])), JoinWords(Words(group[k + 1..])))
  {
    var cleaned := CleanDescription(group);
    DescribeClean(cleaned);
    if '-' in group then
      DescribeDash(group, cleaned);
      SplitDetail(cleaned)
    else
      DescribeNoDash(group, cleaned);
      SplitDetail(cleaned)
  }

  /** The split of the cleaned group keeps both sides clean. */
  lemma DescribeClean(cleaned: string)
    requires CleanText(cleaned)
    ensures var r := SplitDetail(cleaned); CleanText(r.0) && CleanText(r.1) && '-' !in r.0
  {
  }

  /** With no '-' in the group there is none in the cleaned text either. */
  lemma DescribeNoDash(group: string, cleaned: string)
    requires Visible(cleaned) == Visible(group) && '-' !in group
    ensures SplitDetail(cleaned) == (cleaned, "")
  {
    VisibleContains(cleaned, '-');
    VisibleContains(group, '-');
  }

  /** The split falls at the cleaned image of the group's first '-'. */
  lemma DescribeDash(group: string, cleaned: string)
    requires cleaned == JoinWords(Words(group))
    ensures forall k | 0 <= k < |group| && group[k] == '-' && '-' !in group[..k] ::
              SplitDetail(cleaned) == (JoinWords(Words(group[..k])), JoinWords(Words(group[k + 1..])))
  {
    forall k | 0 <= k < |group| && group[k] == '-' && '-' !in group[..k]
      ensures SplitDetail(cleaned) == (JoinWords(Words(group[..k])), JoinWords(Words(group[k + 1..])))
    {
      DescribeAtDash(group, cleaned, k, JoinWords(Words(group[..k])), JoinWords(Words(group[k + 1..])));
    }
  }

  lemma DescribeAtDash(group: string, cleaned: string, k: nat, a: string, b: string)
    requires cleaned == JoinWords(Words(group))
    requires k < |group| && group[k] == '-' && '-' !in group[..k]
    requires a == JoinWords(Words(group[..k])) && b == JoinWords(Words(group[k + 1..]))
    ensures SplitDetail(cleaned) == (a, b)
  {
    CleanAtDash(group, k, cleaned);
  }

  /** float(saldo) after the normalisation: it cannot raise for a captured
      token, and it gives the token's value. */
  function Balance(token: string): (r: real)
    requires IsAmountToken(token)
    ensures r == TokenValue(token)
  {
    TokenNormalizesToItsValue(token);
    ParseFloat(Normalize(token)).value
  }

  /** What a record looks like whichever branch built it: never Indeterminado,
      Crédito exactly when the amount is above zero, and a cleaned description
      and detail. */
  predicate WellFormed(t: Transaction) {
    t.kind != Indeterminate && (t.kind == Credit <==> t.amount > 0.0)
    && CleanText(t.description) && CleanText(t.detail) && '-' !in t.description
  }

  /** The groups of a match: both amounts are tokens of the amount grammar. */
  predicate Captured(g: Option<Groups>) {
    g.Some? ==> IsAmountToken(g.value.amount) && IsAmountToken(g.value.balance)
  }

  /** What re.search returns on a line, as far as the parsers use it. */
  type Capture = g: Option<Groups> | Captured(g) witness None

  /** The record built from the groups of a match and the date to store. */
  function MakeTransaction(date: string, g: Groups): (t: Transaction)
    requires IsAmountToken(g.amount) && IsAmountToken(g.balance)
    ensures t.date == date && WellFormed(t)
    ensures (t.description, t.detail) == Describe(g.description)
    ensures t.amount == TokenValue(g.amount) && t.balance == TokenValue(g.balance)
  {
    var pieces := Describe(g.description);
    var c := Classify(Normalize(g.amount));
    MatchedAmountClassified(g.amount);
    Transaction(date, pieces.0, pieces.1, c.amount, Balance(g.balance), c.kind)
  }

  // ---------------------------------------------------------------------------
  // Banco Provincia

  /** Python truthiness of ultima_fecha: None and "" are false. */
  predicate Truthy(d: Option<string>) {
    d.Some? && d.value != ""
  }

  /** What the two Provincia patterns find on one line. */
  datatype LineMatch = LineMatch(row: Capture, continuation: Capture)

  function ProvinciaMatch(line: string): LineMatch {
    LineMatch(Search(line, ProvinciaRow), Search(line, ProvinciaContinuation))
  }

  function ProvinciaMatches(lines: seq<string>): (r: seq<LineMatch>)
    ensures |r| == |lines|
    decreases |lines|
  {
    if lines == [] then [] else [ProvinciaMatch(lines[0])] + ProvinciaMatches(lines[1..])
  }

  /** The records a stretch of lines yields and the ultima_fecha it leaves. */
  datatype Scan = Scan(records: seq<Transaction>, lastDate: Option<string>)

  /** One iteration of the Provincia loop on what the patterns found on a line,
      under ultima_fecha = lastDate. A dated row gives a record with its own
      date and sets ultima_fecha; only otherwise does a continuation count, and
      it gives a record with ultima_fecha when that is set. */
  function ProvinciaStep(m: LineMatch, lastDate: Option<string>): (r: Scan)
    ensures |r.records| <= 1 && forall k | 0 <= k < |r.records| :: WellFormed(r.records[k])
    ensures m.row.Some? ==> |r.records| == 1 && r.records[0].date == m.row.value.date && r.lastDate == Some(m.row.value.date)
    ensures m.row.None? ==> r.lastDate == lastDate
    ensures m.row.None? ==> (|r.records| == 1 <==> m.continuation.Some? && Truthy(lastDate))
    ensures m.row.None? && |r.records| == 1 ==> r.records[0].date == lastDate.value
    ensures m.row.Some? ==> r.records == [MakeTransaction(m.row.value.date, m.row.value)]
    ensures m.row.None? && |r.records| == 1 ==> r.records == [MakeTransaction(lastDate.value, m.continuation.value)]
  {
    match m.row
    case Some(g) => Scan([MakeTransaction(g.date, g)], Some(g.date))
    case None =>
      match m.continuation
      case Some(g) =>
        if Truthy(lastDate) then Scan([MakeTransaction(lastDate.value, g)], lastDate) else Scan([], lastDate)
      case None => Scan([], lastDate)
  }

  /** The Provincia loop over the matches of successive lines, from
      ultima_fecha = lastDate. */
  function ProvinciaScan(ms: seq<LineMatch>, lastDate: Option<string>): Scan
    decreases |ms|
  {
    if ms == [] then Scan([], lastDate)
    else
      var first := ProvinciaStep(ms[0], lastDate);
      var rest := ProvinciaScan(ms[1..], first.lastDate);
      Scan(first.records + rest.records, rest.lastDate)
  }

  /** The body of the Provincia loop on one line: the records it appends and
      the new ultima_fecha. */
  method ProvinciaLine(line: string, lastDate: Option<string>) returns (added: seq<Transaction>, newDate: Option<string>)
    ensures Scan(added, newDate) == ProvinciaStep(ProvinciaMatch(line), lastDate)
  {
    added, newDate := [], lastDate;
    var row := Search(line, ProvinciaRow);
    if row.Some? {
      var g := row.value;
      newDate := Some(g.date);
      added := [MakeTransaction(g.date, g)];
    } else {
      var continuation := Search(line, ProvinciaContinuation);
      if continuation.Some? && Truthy(lastDate) {
        added := [MakeTransaction(lastDate.value, continuation.value)];
      }
    }
  }

  /** procesar_extracto_provincia */
  method ProcessProvincia(text: string) returns (transactions: seq<Transaction>)
    ensures transactions == ProvinciaScan(ProvinciaMatches(SplitLines(text)), None).records
  {
    var lines := SplitLines(text);
    transactions := [];
    var lastDate: Option<string> := None;
    var i := 0;
    while i < |lines|
      invariant 0 <= i <= |lines|
      invariant transactions + ProvinciaScan(ProvinciaMatches(lines[i..]), lastDate).records
             == ProvinciaScan(ProvinciaMatches(lines), None).records
    {
      ProvinciaScanCons(transactions, lines, i, lastDate);
      var added;
      added, lastDate := ProvinciaLine(lines[i], lastDate);
      transactions := transactions + added;
      i := i + 1;
    }
  }

  lemma AppendAssoc<T>(a: seq<T>, b: seq<T>, c: seq<T>)
    ensures a + b + c == a + (b + c)
  {
  }

  /** One turn of the loop: the records so far, then those of line i, then
      those of the lines after it. */
  lemma ProvinciaScanCons(before: seq<Transaction>, lines: seq<string>, i: nat, lastDate: Option<string>)
    requires i < |lines|
    ensures before + ProvinciaScan(ProvinciaMatches(lines[i..]), lastDate).records
         == before + ProvinciaStep(ProvinciaMatch(lines[i]), lastDate).records
            + ProvinciaScan(ProvinciaMatches(lines[i + 1..]), ProvinciaStep(ProvinciaMatch(lines[i]), lastDate).lastDate).records
  {
    assert lines[i..][0] == lines[i];
    assert lines[i..][1..] == lines[i + 1..];
    AppendAssoc(before, ProvinciaStep(ProvinciaMatch(lines[i]), lastDate).records,
                ProvinciaScan(ProvinciaMatches(lines[i + 1..]), ProvinciaStep(ProvinciaMatch(lines[i]), lastDate).lastDate).records);
  }

  /** The lines of a text followed by more lines are matched one by one. */
  lemma {:induction false} ProvinciaMatchesAppend(a: seq<string>, b: seq<string>)
    ensures ProvinciaMatches(a + b) == ProvinciaMatches(a) + ProvinciaMatches(b)
    decreases |a|
  {
    if a == [] {
      assert a + b == b;
    } else {
      assert (a + b)[0] == a[0];
      assert (a + b)[1..] == a[1..] + b;
      ProvinciaMatchesAppend(a[1..], b);
      AppendAssoc([ProvinciaMatch(a[0])], ProvinciaMatches(a[1..]), ProvinciaMatches(b));
    }
  }

  /** The records of a stretch of lines followed by another: the second stretch
      starts from the ultima_fecha the first one leaves. */
  lemma {:induction false} ProvinciaAppend(a: seq<LineMatch>, b: seq<LineMatch>, lastDate: Option<string>)
    ensures ProvinciaScan(a + b, lastDate)
         == Scan(ProvinciaScan(a, lastDate).records + ProvinciaScan(b, ProvinciaScan(a, lastDate).lastDate).records,
                 ProvinciaScan(b, ProvinciaScan(a, lastDate).lastDate).lastDate)
    decreases |a|
  {
    if a == [] {
      assert a + b == b;
    } else {
      assert (a + b)[0] == a[0];
      assert (a + b)[1..] == a[1..] + b;
      ProvinciaAppend(a[1..], b, ProvinciaStep(a[0], lastDate).lastDate);
      AppendAssoc(ProvinciaStep(a[0], lastDate).records,
                  ProvinciaScan(a[1..], ProvinciaStep(a[0], lastDate).lastDate).records,
                  ProvinciaScan(b, ProvinciaScan(a, lastDate).lastDate).records);
    }
  }

  /** ultima_fecha as read backwards: the date of the last line that matched
      the dated pattern, or the starting value when none did. */
  function LastDated(ms: seq<LineMatch>, lastDate: Option<string>): Option<string>
    decreases |ms|
  {
    if ms == [] then lastDate
    else match ms[|ms| - 1].row
      case Some(g) => Some(g.date)
      case None => LastDated(ms[..|ms| - 1], lastDate)
  }

  /** The ultima_fecha the loop leaves is the date of the last dated row. */
  lemma {:induction false} ProvinciaLastDate(ms: seq<LineMatch>, lastDate: Option<string>)
    ensures ProvinciaScan(ms, lastDate).lastDate == LastDated(ms, lastDate)
    decreases |ms|
  {
    if ms != [] {
      var n := |ms| - 1;
      assert ProvinciaScan(ms, lastDate) == ProvinciaScan(ms[..n] + [ms[n]], lastDate) by {
        assert ms == ms[..n] + [ms[n]];
      }
      ProvinciaAppend(ms[..n], [ms[n]], lastDate);
      ProvinciaLastDate(ms[..n], lastDate);
    }
  }

  /** Each line adds exactly the records of one loop iteration, taken with the
      date of the last dated row above it as ultima_fecha. So a continuation
      line is dated with the most recent dated row, and the records keep the
      order of the lines. */
  lemma ProvinciaLineRecords(ms: seq<LineMatch>, m: LineMatch, lastDate: Option<string>)
    ensures ProvinciaScan(ms + [m], lastDate).records
         == ProvinciaScan(ms, lastDate).records + ProvinciaStep(m, LastDated(ms, lastDate)).records
  {
    ProvinciaAppend(ms, [m], lastDate);
    ProvinciaLastDate(ms, lastDate);
    ProvinciaSingle(m, ProvinciaScan(ms, lastDate).lastDate);
  }

  lemma ProvinciaSingle(m: LineMatch, lastDate: Option<string>)
    ensures ProvinciaScan([m], lastDate).records == ProvinciaStep(m, lastDate).records
  {
    assert [m][1..] == [];
    assert ProvinciaScan([m][1..], ProvinciaStep(m, lastDate).lastDate).records == [];
  }

  /** At most one record per line, and every record well formed. */
  lemma {:induction false} ProvinciaRecords(ms: seq<LineMatch>, lastDate: Option<string>)
    ensures |ProvinciaScan(ms, lastDate).records| <= |ms|
    ensures forall k | 0 <= k < |ProvinciaScan(ms, lastDate).records| :: WellFormed(ProvinciaScan(ms, lastDate).records[k])
    decreases |ms|
  {
    if ms != [] {
      var first := ProvinciaStep(ms[0], lastDate);
      ProvinciaRecords(ms[1..], first.lastDate);
      WellFormedAppend(first.records, ProvinciaScan(ms[1..], first.lastDate).records);
    }
  }

  /** With ultima_fecha unset and no line matching the dated pattern, the
      continuation lines are all dropped: nothing is recorded. */
  lemma {:induction false} ProvinciaNeedsDatedRow(ms: seq<LineMatch>)
    requires forall i | 0 <= i < |ms| :: ms[i].row.None?
    ensures ProvinciaScan(ms, None) == Scan([], None)
    decreases |ms|
  {
    if ms != [] {
      assert ms[0].row.None?;
      ProvinciaNeedsDatedRow(ms[1..]);
    }
  }

  // ---------------------------------------------------------------------------
  // Banco Galicia

  function GaliciaMatches(lines: seq<string>): (r: seq<Capture>)
    ensures |r| == |lines|
    decreases |lines|
  {
    if lines == [] then [] else [Search(lines[0], GaliciaRow)] + GaliciaMatches(lines[1..])
  }

  /** One iteration of the Galicia loop on what re.search found on a line. */
  function GaliciaStep(row: Capture): (r: seq<Transaction>)
    ensures |r| == (if row.Some? then 1 else 0)
    ensures row.Some? ==> r[0].date == row.value.date && WellFormed(r[0])
    ensures row.Some? ==> r == [MakeTransaction(row.value.date, row.value)]
  {
    match row
    case Some(g) => [MakeTransaction(g.date, g)]
    case None => []
  }

  /** The Galicia loop over the matches of successive lines. */
  function GaliciaScan(rows: seq<Capture>): seq<Transaction>
    decreases |rows|
  {
    if rows == [] then [] else GaliciaStep(rows[0]) + GaliciaScan(rows[1..])
  }

  /** procesar_extracto_galicia */
  method ProcessGalicia(text: string) returns (transactions: seq<Transaction>)
    ensures transactions == GaliciaScan(GaliciaMatches(SplitLines(text)))
  {
    var lines := SplitLines(text);
    transactions := [];
    var i := 0;
    while i < |lines|
      invariant 0 <= i <= |lines|
      invariant transactions + GaliciaScan(GaliciaMatches(lines[i..])) == GaliciaScan(GaliciaMatches(lines))
    {
      GaliciaScanCons(transactions, lines, i);
      var added := GaliciaLine(lines[i]);
      transactions := transactions + added;
      i := i + 1;
    }
  }

  /** The body of the Galicia loop on one line: the record it appends, if any. */
  method GaliciaLine(line: string) returns (added: seq<Transaction>)
    ensures added == GaliciaStep(Search(line, GaliciaRow))
  {
    added := [];
    var row := Search(line, GaliciaRow);
    if row.Some? {
      var g := row.value;
      added := [MakeTransaction(g.date, g)];
    }
  }

  lemma GaliciaScanCons(before: seq<Transaction>, lines: seq<string>, i: nat)
    requires i < |lines|
    ensures before + GaliciaScan(GaliciaMatches(lines[i..]))
         == before + GaliciaStep(Search(lines[i], GaliciaRow)) + GaliciaScan(GaliciaMatches(lines[i + 1..]))
  {
    assert lines[i..][0] == lines[i];
    assert lines[i..][1..] == lines[i + 1..];
    AppendAssoc(before, GaliciaStep(Search(lines[i], GaliciaRow)), GaliciaScan(GaliciaMatches(lines[i + 1..])));
  }

  /** The lines of a text followed by more lines are matched one by one. */
  lemma {:induction false} GaliciaMatchesAppend(a: seq<string>, b: seq<string>)
    ensures GaliciaMatches(a + b) == GaliciaMatches(a) + GaliciaMatches(b)
    decreases |a|
  {
    if a == [] {
      assert a + b == b;
    } else {
      assert (a + b)[0] == a[0];
      assert (a + b)[1..] == a[1..] + b;
      GaliciaMatchesAppend(a[1..], b);
      AppendAssoc([Search(a[0], GaliciaRow)], GaliciaMatches(a[1..]), GaliciaMatches(b));
    }
  }

  /** The Galicia lines are independent of each other: the records of two
      stretches of lines are the records of each, in order. */
  lemma {:induction false} GaliciaAppend(a: seq<Capture>, b: seq<Capture>)
    ensures GaliciaScan(a + b) == GaliciaScan(a) + GaliciaScan(b)
    decreases |a|
  {
    if a == [] {
      assert a + b == b;
    } else {
      assert (a + b)[0] == a[0];
      assert (a + b)[1..] == a[1..] + b;
      GaliciaAppend(a[1..], b);
      AppendAssoc(GaliciaStep(a[0]), GaliciaScan(a[1..]), GaliciaScan(b));
    }
  }

  /** So two statement texts joined by a line feed give the records of the
      first followed by those of the second. */
  lemma GaliciaConcat(t1: string, t2: string)
    ensures GaliciaScan(GaliciaMatches(SplitLines(t1 + "\n" + t2)))
         == GaliciaScan(GaliciaMatches(SplitLines(t1))) + GaliciaScan(GaliciaMatches(SplitLines(t2)))
  {
    SplitLinesAppend(t1, t2);
    GaliciaMatchesAppend(SplitLines(t1), SplitLines(t2));
    GaliciaAppend(GaliciaMatches(SplitLines(t1)), GaliciaMatches(SplitLines(t2)));
  }

  /** At most one record per line, and every record well formed. */
  lemma {:induction false} GaliciaRecords(rows: seq<Capture>)
    ensures |GaliciaScan(rows)| <= |rows|
    ensures forall k | 0 <= k < |GaliciaScan(rows)| :: WellFormed(GaliciaScan(rows)[k])
    decreases |rows|
  {
    if rows != [] {
      GaliciaRecords(rows[1..]);
      WellFormedAppend(GaliciaStep(rows[0]), GaliciaScan(rows[1..]));
    }
  }

  lemma WellFormedAppend(h: seq<Transaction>, t: seq<Transaction>)
    requires forall k | 0 <= k < |h| :: WellFormed(h[k])
    requires forall k | 0 <= k < |t| :: WellFormed(t[k])
    ensures forall k | 0 <= k < |h + t| :: WellFormed((h + t)[k])
  {
    forall k | 0 <= k < |h + t|
      ensures WellFormed((h + t)[k])
    {
      if k >= |h| {
        assert (h + t)[k] == t[k - |h|];
      }
    }
  }

  /** Lines that do not match are skipped silently: no record comes from them. */
  lemma {:induction false} GaliciaSkipsUnmatched(rows: seq<Capture>)
    requires forall i | 0 <= i < |rows| :: rows[i].None?
    ensures GaliciaScan(rows) == []
    decreases |rows|
  {
    if rows != [] {
      assert rows[0].None?;
      GaliciaSkipsUnmatched(rows[1..]);
    }
  }

  /** "".split('\n') is [""], a line neither pattern matches: an empty text
      yields no records with either parser. */
  lemma EmptyText()
    ensures ProvinciaScan(ProvinciaMatches(SplitLines("")), None).records == []
    ensures GaliciaScan(GaliciaMatches(SplitLines(""))) == []
  {
    ProvinciaNeedsDatedRow(ProvinciaMatches(SplitLines("")));
    GaliciaSkipsUnmatched(GaliciaMatches(SplitLines("")));
  }
}
