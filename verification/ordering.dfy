/** Chronological order of the merged history rows
    (src/lib/dataUtils.js, line 140: `new Date(a.date) - new Date(b.date)`). */
module Ordering {
  import opened Js
  import opened Feed
  import opened History

  /** The calendar month a key denotes, when `new Date(key)` reads it as an
      ISO year-month "YYYY-MM" (four digits, '-', two digits, month 01-12). */
  function CalendarOf(key: string): Option<(int, int)> {
    if |key| == 7 && AllDigits(key[..4]) && key[4] == '-' && AllDigits(key[5..])
       && 1 <= DecimalValue(key[5..]) <= 12
    then Some((DecimalValue(key[..4]), DecimalValue(key[5..])))
    else None
  }

  /** Months since year 0 of a key, or `None` for a key `Date` cannot read. */
  function MonthIndex(key: string): (k: Option<int>)
    ensures k.Some? <==> CalendarOf(key).Some?
    ensures k.Some? ==> k.value >= 0 && (k.value / 12, k.value % 12 + 1) == CalendarOf(key).value
  {
    match CalendarOf(key)
    case Some((y, m)) => Some(12 * y + (m - 1))
    case None => None
  }

  /** The order the rows are sorted into. Two readable keys compare by month;
      the source's comparator yields NaN for an unreadable key, which leaves
      the engine's order unspecified, and this model places such rows first. */
  predicate Precedes(a: Option<int>, b: Option<int>) {
    a.None? || (b.Some? && a.value <= b.value)
  }

  predicate Sorted(rows: seq<Row>) {
    forall i, j :: 0 <= i < j < |rows| ==> Precedes(MonthIndex(rows[i].date), MonthIndex(rows[j].date))
  }

  /** A month key built from a four-digit year and a period "M01".."M12" is
      read back by `Date` as that year and month. */
  lemma {:induction false} KeyReadsBack(year: nat, period: string)
    requires 1000 <= year <= 9999
    requires |period| == 3 && period[0] == 'M' && AllDigits(period[1..])
    requires 1 <= DecimalValue(period[1..]) <= 12
    ensures CalendarOf(NatToDecimal(year) + "-" + period[1..]) == Some((year, DecimalValue(period[1..])))
  {
    var y := NatToDecimal(year);
    FourDigitYear(year);
    DecimalRoundTrip(year);
    var key := y + "-" + period[1..];
    assert key[..4] == y;
    assert key[5..] == period[1..];
  }

  /** The month key of a history entry with a four-digit year and a period
      "M01" to "M12" denotes that year and month. */
  lemma EntryMonthReadsBack(e: Entry, year: nat)
    requires 1000 <= year <= 9999 && Text(e.year) == NatToDecimal(year)
    requires e.period.Str? && |e.period.s| == 3 && e.period.s[0] == 'M'
    requires AllDigits(e.period.s[1..]) && 1 <= DecimalValue(e.period.s[1..]) <= 12
    ensures MonthIndex(MonthKey(e)) == Some(12 * year + DecimalValue(e.period.s[1..]) - 1)
  {
    KeyReadsBack(year, e.period.s);
  }

  /** Distinct readable keys denote distinct months. */
  lemma {:induction false} MonthIndexInjective(a: string, b: string)
    requires MonthIndex(a).Some? && MonthIndex(a) == MonthIndex(b)
    ensures a == b
  {
    var ya, ma := DecimalValue(a[..4]), DecimalValue(a[5..]);
    var yb, mb := DecimalValue(b[..4]), DecimalValue(b[5..]);
    assert 12 * ya + (ma - 1) == 12 * yb + (mb - 1);
    assert ya == yb && ma == mb;
    DecimalValueInjective(a[..4], b[..4]);
    DecimalValueInjective(a[5..], b[5..]);
    assert a == a[..4] + [a[4]] + a[5..];
    assert b == b[..4] + [b[4]] + b[5..];
  }

  /** Insert `x` into sorted `s` before the first row it precedes. */
  function Insert(x: Row, s: seq<Row>): (r: seq<Row>)
    requires Sorted(s)
    ensures Sorted(r)
    ensures multiset(r) == multiset(s) + multiset{x}
    ensures forall i :: 0 <= i < |r| ==> r[i] == x || r[i] in s
    ensures UniqueDates(s) && !HasDate(s, x.date) ==> UniqueDates(r)
    decreases |s|
  {
    if s == [] then [x]
    else if Precedes(MonthIndex(x.date), MonthIndex(s[0].date)) then [x] + s
    else
      var r' := Insert(x, s[1..]);
      InsertBehindHead(x, s, r');
      [s[0]] + r'
  }

  /** The inductive step of `Insert`: `x` goes after the head of `s`. */
  lemma InsertBehindHead(x: Row, s: seq<Row>, r': seq<Row>)
    requires Sorted(s) && |s| > 0 && !Precedes(MonthIndex(x.date), MonthIndex(s[0].date))
    requires Sorted(r') && multiset(r') == multiset(s[1..]) + multiset{x}
    requires forall i :: 0 <= i < |r'| ==> r'[i] == x || r'[i] in s[1..]
    requires UniqueDates(s[1..]) && !HasDate(s[1..], x.date) ==> UniqueDates(r')
    ensures Sorted([s[0]] + r')
    ensures multiset([s[0]] + r') == multiset(s) + multiset{x}
    ensures forall i :: 0 <= i < |[s[0]] + r'| ==> ([s[0]] + r')[i] == x || ([s[0]] + r')[i] in s
    ensures UniqueDates(s) && !HasDate(s, x.date) ==> UniqueDates([s[0]] + r')
  {
    assert s == [s[0]] + s[1..];
    HeadPrecedesRest(x, s, r');
    ConsSorted(s[0], r');
    BehindHeadMembers(x, s, r');
    if UniqueDates(s) && !HasDate(s, x.date) {
      BehindHeadUnique(x, s, r');
    }
  }

  /** The head of `s` precedes every row of the insertion into the tail. */
  lemma HeadPrecedesRest(x: Row, s: seq<Row>, r': seq<Row>)
    requires Sorted(s) && |s| > 0 && !Precedes(MonthIndex(x.date), MonthIndex(s[0].date))
    requires forall i :: 0 <= i < |r'| ==> r'[i] == x || r'[i] in s[1..]
    ensures forall i :: 0 <= i < |r'| ==> Precedes(MonthIndex(s[0].date), MonthIndex(r'[i].date))
  {
    var t := s[1..];
    forall i | 0 <= i < |r'| ensures Precedes(MonthIndex(s[0].date), MonthIndex(r'[i].date)) {
      if r'[i] != x {
        var k :| 0 <= k < |t| && t[k] == r'[i];
        assert s[k + 1] == t[k];
      }
    }
  }

  /** A row that precedes every row of a sorted sequence can go in front. */
  lemma ConsSorted(h: Row, r': seq<Row>)
    requires Sorted(r')
    requires forall i :: 0 <= i < |r'| ==> Precedes(MonthIndex(h.date), MonthIndex(r'[i].date))
    ensures Sorted([h] + r')
  {
    var r := [h] + r';
    forall i, j | 0 <= i < j < |r| ensures Precedes(MonthIndex(r[i].date), MonthIndex(r[j].date)) {
      assert r[j] == r'[j - 1];
      if i > 0 {
        assert r[i] == r'[i - 1];
      }
    }
  }

  lemma BehindHeadMembers(x: Row, s: seq<Row>, r': seq<Row>)
    requires |s| > 0
    requires forall i :: 0 <= i < |r'| ==> r'[i] == x || r'[i] in s[1..]
    ensures forall i :: 0 <= i < |[s[0]] + r'| ==> ([s[0]] + r')[i] == x || ([s[0]] + r')[i] in s
  {
    var r := [s[0]] + r';
    forall i | 0 <= i < |r| ensures r[i] == x || r[i] in s {
      if i > 0 {
        assert r[i] == r'[i - 1];
        if r[i] != x {
          var k :| 0 <= k < |s| - 1 && s[1..][k] == r[i];
          assert s[k + 1] == r[i];
        }
      }
    }
  }

  lemma BehindHeadUnique(x: Row, s: seq<Row>, r': seq<Row>)
    requires |s| > 0 && UniqueDates(s) && !HasDate(s, x.date)
    requires forall i :: 0 <= i < |r'| ==> r'[i] == x || r'[i] in s[1..]
    requires UniqueDates(s[1..]) && !HasDate(s[1..], x.date) ==> UniqueDates(r')
    ensures UniqueDates([s[0]] + r')
  {
    var t := s[1..];
    assert UniqueDates(t) by {
      forall i, j | 0 <= i < j < |t| ensures t[i].date != t[j].date {
        assert t[i] == s[i + 1] && t[j] == s[j + 1];
      }
    }
    assert !HasDate(t, x.date) by {
      forall i | 0 <= i < |t| ensures t[i].date != x.date {
        assert t[i] == s[i + 1];
      }
    }
    forall i | 0 <= i < |r'| ensures r'[i].date != s[0].date {
      if r'[i] != x {
        var k :| 0 <= k < |t| && t[k] == r'[i];
        assert s[k + 1] == t[k];
      } else {
        assert s[0].date != x.date;
      }
    }
    var r := [s[0]] + r';
    forall i, j | 0 <= i < j < |r| ensures r[i].date != r[j].date {
      assert r[j] == r'[j - 1];
      if i > 0 {
        assert r[i] == r'[i - 1];
      }
    }
  }

  /** Insertion sort of the merged rows into chronological order. */
  function SortRows(s: seq<Row>): (r: seq<Row>)
    ensures Sorted(r)
    ensures multiset(r) == multiset(s)
    ensures |r| == |s|
    ensures forall i :: 0 <= i < |r| ==> r[i] in s
    ensures forall d :: HasDate(r, d) <==> HasDate(s, d)
    ensures UniqueDates(s) ==> UniqueDates(r)
    decreases |s|
  {
    if s == [] then []
    else
      var sorted := SortRows(s[1..]);
      var r := Insert(s[0], sorted);
      SortStep(s, sorted, r);
      r
  }

  /** The inductive step of `SortRows`: inserting the head into the sorted tail. */
  lemma SortStep(s: seq<Row>, sorted: seq<Row>, r: seq<Row>)
    requires |s| > 0
    requires multiset(sorted) == multiset(s[1..]) && |sorted| == |s| - 1
    requires forall i :: 0 <= i < |sorted| ==> sorted[i] in s[1..]
    requires forall d :: HasDate(sorted, d) <==> HasDate(s[1..], d)
    requires UniqueDates(s[1..]) ==> UniqueDates(sorted)
    requires multiset(r) == multiset(sorted) + multiset{s[0]}
    requires forall i :: 0 <= i < |r| ==> r[i] == s[0] || r[i] in sorted
    requires UniqueDates(sorted) && !HasDate(sorted, s[0].date) ==> UniqueDates(r)
    ensures multiset(r) == multiset(s) && |r| == |s|
    ensures forall i :: 0 <= i < |r| ==> r[i] in s
    ensures forall d :: HasDate(r, d) <==> HasDate(s, d)
    ensures UniqueDates(s) ==> UniqueDates(r)
  {
    var t := s[1..];
    assert s == [s[0]] + t;
    assert |r| == |multiset(r)| == |s|;
    StepMembers(s, sorted, r);
    StepDates(s, r);
    if UniqueDates(s) {
      TailUnique(s);
    }
  }

  lemma StepMembers(s: seq<Row>, sorted: seq<Row>, r: seq<Row>)
    requires |s| > 0
    requires forall i :: 0 <= i < |sorted| ==> sorted[i] in s[1..]
    requires forall i :: 0 <= i < |r| ==> r[i] == s[0] || r[i] in sorted
    ensures forall i :: 0 <= i < |r| ==> r[i] in s
  {
    forall i | 0 <= i < |r| ensures r[i] in s {
      if r[i] != s[0] {
        var k :| 0 <= k < |sorted| && sorted[k] == r[i];
        assert r[i] in s[1..];
        var q :| 0 <= q < |s| - 1 && s[1..][q] == r[i];
        assert s[q + 1] == r[i];
      }
    }
  }

  lemma StepDates(s: seq<Row>, r: seq<Row>)
    requires multiset(r) == multiset(s)
    ensures forall d :: HasDate(r, d) <==> HasDate(s, d)
  {
    forall d ensures HasDate(r, d) <==> HasDate(s, d) {
      if HasDate(r, d) {
        var k :| 0 <= k < |r| && r[k].date == d;
        assert r[k] in multiset(s);
      }
      if HasDate(s, d) {
        var k :| 0 <= k < |s| && s[k].date == d;
        assert s[k] in multiset(r);
      }
    }
  }

  /** The tail of rows with unique dates has unique dates and lacks the
      head's date. */
  lemma TailUnique(s: seq<Row>)
    requires |s| > 0 && UniqueDates(s)
    ensures UniqueDates(s[1..]) && !HasDate(s[1..], s[0].date)
  {
    var t := s[1..];
    forall i, j | 0 <= i < j < |t| ensures t[i].date != t[j].date {
      assert t[i] == s[i + 1] && t[j] == s[j + 1];
    }
    forall i | 0 <= i < |t| ensures t[i].date != s[0].date {
      assert t[i] == s[i + 1];
    }
  }

  /** Sorted rows with distinct dates ascend strictly among readable keys. */
  lemma StrictlyAscending(rows: seq<Row>, i: int, j: int)
    requires Sorted(rows) && UniqueDates(rows)
    requires 0 <= i < j < |rows| && MonthIndex(rows[i].date).Some?
    ensures MonthIndex(rows[j].date).Some?
    ensures MonthIndex(rows[i].date).value < MonthIndex(rows[j].date).value
  {
    if MonthIndex(rows[i].date) == MonthIndex(rows[j].date) {
      MonthIndexInjective(rows[i].date, rows[j].date);
    }
  }
}
