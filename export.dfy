/** What guardar_excel of app.py does with the records before it writes the
    workbook: nothing at all for an empty list (it returns False), and
    otherwise every date goes through reformatear_fecha and the rows are
    sorted by date string, then by balance, both descending. Sorting
    DD/MM/YYYY strings as text puts the day first; the chronological order
    the comment above the sort announces is modelled beside it. */
module Export {
  import opened Options
  import opened Statements
  import opened Dates
  import opened Amounts

  // ---------------------------------------------------------------------------
  // Python's < on str

  /** Python's < on str: code point by code point, a proper prefix first. */
  predicate StrLess(a: string, b: string)
    decreases |a|
  {
    if a == [] then b != []
    else if b == [] then false
    else if a[0] != b[0] then a[0] < b[0]
    else StrLess(a[1..], b[1..])
  }

  lemma {:induction false} StrLessIrreflexive(a: string)
    ensures !StrLess(a, a)
    decreases |a|
  {
    if a != [] {
      StrLessIrreflexive(a[1..]);
    }
  }

  lemma {:induction false} StrLessTransitive(a: string, b: string, c: string)
    requires StrLess(a, b) && StrLess(b, c)
    ensures StrLess(a, c)
    decreases |a|
  {
    if a != [] && a[0] == b[0] && b[0] == c[0] {
      StrLessTransitive(a[1..], b[1..], c[1..]);
    }
  }

  /** Two different strings are ordered one way or the other, never both. */
  lemma {:induction false} StrLessTotal(a: string, b: string)
    ensures a == b || StrLess(a, b) || StrLess(b, a)
    ensures !(StrLess(a, b) && StrLess(b, a))
    decreases |a|
  {
    if a != [] && b != [] && a[0] == b[0] {
      StrLessTotal(a[1..], b[1..]);
      if a[1..] == b[1..] {
        assert a == [a[0]] + a[1..] && b == [b[0]] + b[1..];
      }
    }
  }

  /** StrLess on texts that agree in length up to some point decides on the
      first part, and on the rest when the first parts are equal. */
  lemma {:induction false} StrLessConcat(a1: string, b1: string, a2: string, b2: string)
    requires |a1| == |a2|
    ensures StrLess(a1 + b1, a2 + b2) <==> StrLess(a1, a2) || (a1 == a2 && StrLess(b1, b2))
    decreases |a1|
  {
    if a1 == [] {
      assert a1 + b1 == b1 && a2 + b2 == b2;
    } else {
      assert (a1 + b1)[0] == a1[0] && (a1 + b1)[1..] == a1[1..] + b1;
      assert (a2 + b2)[0] == a2[0] && (a2 + b2)[1..] == a2[1..] + b2;
      StrLessConcat(a1[1..], b1, a2[1..], b2);
      assert a1 == [a1[0]] + a1[1..] && a2 == [a2[0]] + a2[1..];
    }
  }

  // ---------------------------------------------------------------------------
  // The order of the sheet

  /** sort_values orders the date column as text (AsText), which on
      DD/MM/YYYY strings puts the day before the month and the year; the
      chronological order compares the year, then the month, then the day of
      a DD/MM/YYYY string, and any other string as text. */
  datatype DateOrder = AsText | Chronological

  /** The text the date column is compared by. */
  function SortKey(o: DateOrder, date: string): string {
    if o == Chronological && |date| == 10 && date[2] == '/' && date[5] == '/' then
      date[6..] + date[3..5] + date[..2]
    else date
  }

  /** Row x may come before row y in the sheet: a later date, or the same
      date and a balance at least as high. */
  predicate Precedes(o: DateOrder, x: Transaction, y: Transaction) {
    StrLess(SortKey(o, y.date), SortKey(o, x.date))
    || (SortKey(o, x.date) == SortKey(o, y.date) && y.balance <= x.balance)
  }

  lemma PrecedesTotal(o: DateOrder, x: Transaction, y: Transaction)
    ensures Precedes(o, x, y) || Precedes(o, y, x)
  {
    StrLessTotal(SortKey(o, x.date), SortKey(o, y.date));
  }

  lemma PrecedesTransitive(o: DateOrder, x: Transaction, y: Transaction, z: Transaction)
    requires Precedes(o, x, y) && Precedes(o, y, z)
    ensures Precedes(o, x, z)
  {
    var kx, ky, kz := SortKey(o, x.date), SortKey(o, y.date), SortKey(o, z.date);
    if StrLess(ky, kx) && StrLess(kz, ky) {
      StrLessTransitive(kz, ky, kx);
    }
  }

  /** df.sort_values(by=["fecha", "saldo"], ascending=[False, False]) leaves
      every row before the rows after it in this order. */
  predicate Sorted(o: DateOrder, rows: seq<Transaction>) {
    forall i, j | 0 <= i < j < |rows| :: Precedes(o, rows[i], rows[j])
  }

  // ---------------------------------------------------------------------------
  // Sorting

  /** x put in its place among sorted rows. */
  function Insert(o: DateOrder, x: Transaction, rows: seq<Transaction>): (r: seq<Transaction>)
    requires Sorted(o, rows)
    ensures Sorted(o, r) && multiset(r) == multiset(rows) + multiset{x}
    decreases |rows|
  {
    if rows == [] then [x]
    else if Precedes(o, x, rows[0]) then
      InsertFront(o, x, rows);
      [x] + rows
    else
      SortedTail(o, rows);
      var rest := Insert(o, x, rows[1..]);
      InsertLater(o, x, rows, rest);
      [rows[0]] + rest
  }

  lemma InsertLater(o: DateOrder, x: Transaction, rows: seq<Transaction>, rest: seq<Transaction>)
    requires Sorted(o, rows) && rows != [] && !Precedes(o, x, rows[0])
    requires Sorted(o, rest) && multiset(rest) == multiset(rows[1..]) + multiset{x}
    ensures Sorted(o, [rows[0]] + rest) && multiset([rows[0]] + rest) == multiset(rows) + multiset{x}
  {
    PrecedesTotal(o, x, rows[0]);
    assert rows == [rows[0]] + rows[1..];
    InsertBehind(o, rows[0], rest, x, rows[1..]);
  }

  lemma SortedTail(o: DateOrder, rows: seq<Transaction>)
    requires Sorted(o, rows) && rows != []
    ensures Sorted(o, rows[1..])
  {
    forall i, j | 0 <= i < j < |rows| - 1 ensures Precedes(o, rows[1..][i], rows[1..][j]) {
      assert rows[1..][i] == rows[i + 1] && rows[1..][j] == rows[j + 1];
    }
  }

  lemma InsertFront(o: DateOrder, x: Transaction, rows: seq<Transaction>)
    requires Sorted(o, rows) && rows != [] && Precedes(o, x, rows[0])
    ensures Sorted(o, [x] + rows)
  {
    forall j | 0 < j < |rows| ensures Precedes(o, x, rows[j]) {
      PrecedesTransitive(o, x, rows[0], rows[j]);
    }
  }

  lemma InsertBehind(o: DateOrder, h: Transaction, rest: seq<Transaction>, x: Transaction, tail: seq<Transaction>)
    requires Sorted(o, rest) && Sorted(o, [h] + tail)
    requires multiset(rest) == multiset(tail) + multiset{x} && Precedes(o, h, x)
    ensures Sorted(o, [h] + rest)
  {
    forall j | 0 <= j < |rest| ensures Precedes(o, h, rest[j]) {
      assert rest[j] in multiset(rest);
      if rest[j] != x {
        assert rest[j] in multiset(tail);
        var k :| 0 <= k < |tail| && tail[k] == rest[j];
        assert ([h] + tail)[0] == h && ([h] + tail)[k + 1] == tail[k];
      }
    }
  }

  /** The rows in the order of the sheet. */
  function SortRows(o: DateOrder, rows: seq<Transaction>): (r: seq<Transaction>)
    ensures Sorted(o, r) && multiset(r) == multiset(rows)
    decreases |rows|
  {
    if rows == [] then []
    else
      assert rows == [rows[0]] + rows[1..];
      Insert(o, rows[0], SortRows(o, rows[1..]))
  }

  // ---------------------------------------------------------------------------
  // guardar_excel

  /** df["fecha"] = df["fecha"].apply(reformatear_fecha) */
  function ReformatDates(rows: seq<Transaction>): (r: seq<Transaction>)
    ensures |r| == |rows|
    ensures forall i | 0 <= i < |rows| :: r[i] == rows[i].(date := Reformatted(rows[i].date))
  {
    seq(|rows|, i requires 0 <= i < |rows| => rows[i].(date := Reformatted(rows[i].date)))
  }

  /** What guardar_excel returns, and the rows of the workbook it writes
      (None when it writes none). */
  datatype Saved = Saved(ok: bool, sheet: Option<seq<Transaction>>)

  /** guardar_excel with the date column ordered by o: AsText is the code as
      written, Chronological the order its comment announces. */
  function SaveWorkbook(o: DateOrder, transactions: seq<Transaction>): (r: Saved)
    ensures !r.ok <==> transactions == []
    ensures r.ok <==> r.sheet.Some?
    ensures r.ok ==> Sorted(o, r.sheet.value)
    ensures r.ok ==> multiset(r.sheet.value) == multiset(ReformatDates(transactions))
  {
    if transactions == [] then Saved(false, None)
    else Saved(true, Some(SortRows(o, ReformatDates(transactions))))
  }

  /** Reformatting the dates of the sheet again changes nothing. */
  lemma {:induction false} SheetDatesSettled(o: DateOrder, transactions: seq<Transaction>)
    requires transactions != []
    ensures ReformatDates(SaveWorkbook(o, transactions).sheet.value) == SaveWorkbook(o, transactions).sheet.value
  {
    var sheet := SaveWorkbook(o, transactions).sheet.value;
    var rows := ReformatDates(transactions);
    forall i | 0 <= i < |sheet| ensures sheet[i].(date := Reformatted(sheet[i].date)) == sheet[i] {
      assert sheet[i] in multiset(rows);
      var k :| 0 <= k < |rows| && rows[k] == sheet[i];
      Idempotent(transactions[k].date);
    }
  }

  /** The sheet has as many rows as there are records. */
  lemma SheetKeepsEveryRow(o: DateOrder, transactions: seq<Transaction>)
    requires transactions != []
    ensures |SaveWorkbook(o, transactions).sheet.value| == |transactions|
  {
    var sheet := SaveWorkbook(o, transactions).sheet.value;
    assert |multiset(sheet)| == |multiset(ReformatDates(transactions))|;
  }

  /** The first row of the sheet has the greatest date key of all. */
  lemma FirstRowLatest(o: DateOrder, transactions: seq<Transaction>)
    requires transactions != []
    ensures forall k | 0 <= k < |transactions| ::
              !StrLess(SortKey(o, SaveWorkbook(o, transactions).sheet.value[0].date),
                       SortKey(o, Reformatted(transactions[k].date)))
  {
    var sheet := SaveWorkbook(o, transactions).sheet.value;
    var rows := ReformatDates(transactions);
    SheetKeepsEveryRow(o, transactions);
    forall k | 0 <= k < |transactions|
      ensures !StrLess(SortKey(o, sheet[0].date), SortKey(o, Reformatted(transactions[k].date)))
    {
      assert rows[k] in multiset(sheet);
      var j :| 0 <= j < |sheet| && sheet[j] == rows[k];
      if j == 0 {
        StrLessIrreflexive(SortKey(o, sheet[0].date));
      } else {
        assert Precedes(o, sheet[0], sheet[j]);
        StrLessTotal(SortKey(o, sheet[0].date), SortKey(o, sheet[j].date));
      }
    }
  }

  // ---------------------------------------------------------------------------
  // The order of the dates

  /** d1 is an earlier day than d2. */
  predicate Earlier(d1: Date, d2: Date) {
    d1.year < d2.year
    || (d1.year == d2.year && (d1.month < d2.month || (d1.month == d2.month && d1.day < d2.day)))
  }

  /** Digits compare as their values. */
  lemma DigitCharOrder(m: nat, n: nat)
    requires m < 10 && n < 10
    ensures DigitChar(m) < DigitChar(n) <==> m < n
    ensures DigitChar(m) == DigitChar(n) <==> m == n
  {
  }

  /** Two digits compare as text as their values compare. */
  lemma Pad2Order(m: nat, n: nat)
    requires m < 100 && n < 100
    ensures StrLess(Pad2(m), Pad2(n)) <==> m < n
  {
    var a, b := Pad2(m), Pad2(n);
    assert a == [DigitChar(m / 10)] + [DigitChar(m % 10)];
    assert b == [DigitChar(n / 10)] + [DigitChar(n % 10)];
    StrLessConcat([DigitChar(m / 10)], [DigitChar(m % 10)], [DigitChar(n / 10)], [DigitChar(n % 10)]);
    DigitCharOrder(m / 10, n / 10);
    DigitCharOrder(m % 10, n % 10);
    assert m == m / 10 * 10 + m % 10 && n == n / 10 * 10 + n % 10;
  }

  /** Four digits compare as text as their values compare. */
  lemma Pad4Order(m: nat, n: nat)
    requires m < 10000 && n < 10000
    ensures StrLess(Pad4(m), Pad4(n)) <==> m < n
  {
    StrLessConcat(Pad2(m / 100), Pad2(m % 100), Pad2(n / 100), Pad2(n % 100));
    Pad2Order(m / 100, n / 100);
    Pad2Order(m % 100, n % 100);
    if Pad2(m / 100) == Pad2(n / 100) {
      assert NatValue(Pad2(m / 100)) == NatValue(Pad2(n / 100));
    }
  }

  /** The key of a date written DD/MM/YYYY is YYYYMMDD. */
  lemma RenderKey(d: Date)
    requires Valid(d)
    ensures SortKey(Chronological, Render(d)) == Pad4(d.year) + (Pad2(d.month) + Pad2(d.day))
  {
    var s := Render(d);
    assert s[6..] == Pad4(d.year) && s[3..5] == Pad2(d.month) && s[..2] == Pad2(d.day);
  }

  /** In the chronological order the keys of two dates compare as the dates
      do. */
  lemma {:induction false} ChronologicalKeys(d1: Date, d2: Date)
    requires Valid(d1) && Valid(d2)
    ensures StrLess(SortKey(Chronological, Render(d1)), SortKey(Chronological, Render(d2))) <==> Earlier(d1, d2)
    ensures SortKey(Chronological, Render(d1)) == SortKey(Chronological, Render(d2)) <==> d1 == d2
  {
    RenderKey(d1);
    RenderKey(d2);
    var y1, m1, a1 := Pad4(d1.year), Pad2(d1.month), Pad2(d1.day);
    var y2, m2, a2 := Pad4(d2.year), Pad2(d2.month), Pad2(d2.day);
    StrLessConcat(y1, m1 + a1, y2, m2 + a2);
    StrLessConcat(m1, a1, m2, a2);
    Pad4Order(d1.year, d2.year);
    Pad2Order(d1.month, d2.month);
    Pad2Order(d1.day, d2.day);
    if y1 + (m1 + a1) == y2 + (m2 + a2) {
      assert y1 == (y1 + (m1 + a1))[..4] && y2 == (y2 + (m2 + a2))[..4];
      assert m1 == (y1 + (m1 + a1))[4..6] && m2 == (y2 + (m2 + a2))[4..6];
      assert a1 == (y1 + (m1 + a1))[6..] && a2 == (y2 + (m2 + a2))[6..];
      assert NatValue(y1) == NatValue(y2) && NatValue(m1) == NatValue(m2) && NatValue(a1) == NatValue(a2);
    }
  }

  /** As written, the sheet orders DD/MM/YYYY dates by day first: a row of
      31/01/2023 comes before a row of 01/02/2023, whichever order they come
      in, although it is the earlier day. */
  lemma {:induction false} SheetNotChronological(x: Transaction, y: Transaction, d1: Date, d2: Date)
    requires d1 == Date(31, 1, 2023) && d2 == Date(1, 2, 2023)
    requires x.date == Render(d1) && y.date == Render(d2)
    ensures Earlier(d1, d2)
    ensures SaveWorkbook(AsText, [x, y]).sheet.value == [x, y]
    ensures SaveWorkbook(AsText, [y, x]).sheet.value == [x, y]
  {
    DayBeforeMonth(d1, d2);
    CanonicalUnchanged(d1);
    CanonicalUnchanged(d2);
    SettledPair(x, y);
    assert !Precedes(AsText, y, x);
    OnlyOrder(SaveWorkbook(AsText, [x, y]).sheet.value, x, y);
    assert multiset([y, x]) == multiset([x, y]);
    OnlyOrder(SaveWorkbook(AsText, [y, x]).sheet.value, x, y);
  }

  /** 01/02/2023 is less than 31/01/2023 as text. */
  lemma DayBeforeMonth(d1: Date, d2: Date)
    requires d1 == Date(31, 1, 2023) && d2 == Date(1, 2, 2023)
    ensures Valid(d1) && Valid(d2) && Earlier(d1, d2)
    ensures StrLess(Render(d2), Render(d1)) && !StrLess(Render(d1), Render(d2))
  {
    DayFirst(d1);
    DayFirst(d2);
    DigitCharOrder(0, 3);
    StrLessTotal(Render(d2), Render(d1));
  }

  /** Rows whose dates reformat to themselves are kept as they are. */
  lemma SettledPair(x: Transaction, y: Transaction)
    requires Reformatted(x.date) == x.date && Reformatted(y.date) == y.date
    ensures ReformatDates([x, y]) == [x, y] && ReformatDates([y, x]) == [y, x]
  {
    var r, q := ReformatDates([x, y]), ReformatDates([y, x]);
    assert r[0] == x && r[1] == y;
    assert q[0] == y && q[1] == x;
  }

  /** A date written DD/MM/YYYY starts with the tens of its day. */
  lemma DayFirst(d: Date)
    requires Valid(d)
    ensures Render(d)[0] == DigitChar(d.day / 10)
  {
  }

  /** Two sorted rows that x must lead are in the order x, y. */
  lemma OnlyOrder(sheet: seq<Transaction>, x: Transaction, y: Transaction)
    requires Sorted(AsText, sheet) && multiset(sheet) == multiset([x, y])
    requires !Precedes(AsText, y, x)
    ensures sheet == [x, y]
  {
    assert |sheet| == |multiset(sheet)| == 2;
    assert sheet[0] in multiset(sheet) && sheet[1] in multiset(sheet);
    assert Precedes(AsText, sheet[0], sheet[1]);
    if x == y {
      assert false;
    }
    assert multiset(sheet) == multiset{sheet[0], sheet[1]};
  }

  /** With the chronological order, whenever two rows of the sheet hold dates
      written DD/MM/YYYY, the upper one is not the earlier day. */
  lemma {:induction false} SheetChronological(transactions: seq<Transaction>, i: nat, j: nat, di: Date, dj: Date)
    requires transactions != []
    requires i < j < |SaveWorkbook(Chronological, transactions).sheet.value|
    requires Valid(di) && SaveWorkbook(Chronological, transactions).sheet.value[i].date == Render(di)
    requires Valid(dj) && SaveWorkbook(Chronological, transactions).sheet.value[j].date == Render(dj)
    ensures !Earlier(di, dj)
  {
    var sheet := SaveWorkbook(Chronological, transactions).sheet.value;
    assert Precedes(Chronological, sheet[i], sheet[j]);
    ChronologicalKeys(di, dj);
    ChronologicalKeys(dj, di);
    StrLessTotal(SortKey(Chronological, Render(di)), SortKey(Chronological, Render(dj)));
  }
}
