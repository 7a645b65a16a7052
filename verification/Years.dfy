/** Copyright years (find_copyrights.py): a set of years printed as comma-separated years and ranges, and
    read back. */
module Years {
  import opened Common
  import opened Decimal
  import opened Text

  // ---- text ----

  function DropSpaces(s: string): string {
    if s != [] && IsSpace(s[|s| - 1]) then DropSpaces(s[..|s| - 1]) else s
  }

  function Strip(s: string): string {
    DropSpaces(SkipSpaces(s))
  }

  function Split(s: string): seq<string> {
    if s == [] then [[]]
    else if s[0] == ',' then [[]] + Split(s[1..])
    else [[s[0]] + Split(s[1..])[0]] + Split(s[1..])[1..]
  }

  function Join(parts: seq<string>): string
    requires parts != []
  {
    if |parts| == 1 then parts[0] else parts[0] + [','] + Join(parts[1..])
  }

  function PrintInt(n: int): string {
    if n < 0 then ['-'] + Print(-n) else Print(n)
  }

  /** int(): an optional sign and digits. */
  function ParseInt(s: string): Option<int> {
    var t := if s != [] && (s[0] == '-' || s[0] == '+') then s[1..] else s;
    if t == [] || !AllDigits(t) then None
    else
      var n: int := Read(t, 0);
      if s[0] == '-' then Some(-n) else Some(n)
  }

  /** The range expression at the start of s: four digits, a dash, four digits, spaces around the dash. */
  function MatchRange(s: string): Option<(nat, nat)> {
    if |s| < 4 || !AllDigits(s[..4]) then None
    else
      var t := SkipSpaces(s[4..]);
      if t == [] || t[0] != '-' then None
      else
        var u := SkipSpaces(t[1..]);
        if |u| < 4 || !AllDigits(u[..4]) then None else Some((Read(s[..4], 0), Read(u[..4], 0)))
  }

  /** Whether one item of the list stands for year y. */
  predicate Stands(item: string, y: int) {
    match MatchRange(item)
    case Some((f, l)) => f <= y <= l
    case None => ParseInt(item) == Some(y)
  }

  /** Whether a list of dates stands for year y. */
  ghost predicate Listed(dates: string, y: int) {
    exists i :: 0 <= i < |Split(dates)| && Stands(Strip(Split(dates)[i]), y)
  }

  method ProcessDates(dates: string) returns (output: set<int>)
    ensures forall y :: y in output <==> Listed(dates, y)
  {
    var items := Split(dates);
    output := {};
    var k := 0;
    while k < |items|
      invariant k <= |items|
      invariant forall y :: y in output <==> exists i :: 0 <= i < k && Stands(Strip(items[i]), y)
    {
      var date := Strip(items[k]);
      ghost var before := output;
      var range := MatchRange(date);
      if range.Some? {
        var (f, l) := range.value;
        var i: int := f;
        while i <= l
          invariant f <= i && (i <= l + 1 || i == f)
          invariant forall y :: y in output <==> y in before || f <= y < i
          decreases l + 1 - i
        {
          output := output + {i};
          i := i + 1;
        }
      } else if ParseInt(date).Some? {
        output := output + {ParseInt(date).value};
      }
      assert forall y :: y in output <==> y in before || Stands(date, y);
      k := k + 1;
    }
  }

  // ---- printing ----

  datatype Run = Run(first: int, last: int)

  function PrintRun(r: Run): string {
    if r.first == r.last then PrintInt(r.first) else PrintInt(r.first) + ['-'] + PrintInt(r.last)
  }

  function PrintRuns(runs: seq<Run>): seq<string> {
    seq(|runs|, i requires 0 <= i < |runs| => PrintRun(runs[i]))
  }

  predicate Within(r: Run, y: int) {
    r.first <= y <= r.last
  }

  ghost predicate Covers(runs: seq<Run>, y: int) {
    exists i :: 0 <= i < |runs| && Within(runs[i], y)
  }

  /** Runs in order with at least one missing year between neighbours. */
  ghost predicate Gapped(runs: seq<Run>) {
    (forall i :: 0 <= i < |runs| ==> runs[i].first <= runs[i].last) &&
    (forall i, j :: 0 <= i < j < |runs| ==> runs[i].last + 1 < runs[j].first)
  }

  ghost predicate Ascending(s: seq<int>) {
    forall i, j :: 0 <= i < j < |s| ==> s[i] < s[j]
  }

  /** sort() of the list of a set: its years in any order, each once. */
  method SortYears(dates: seq<int>) returns (s: seq<int>)
    requires Distinct(dates)
    ensures |s| == |dates| && Ascending(s) && forall y :: y in s <==> y in dates
  {
    s := [];
    var k := 0;
    while k < |dates|
      invariant k == |s| <= |dates| && Ascending(s) && forall y :: y in s <==> y in dates[..k]
    {
      s := Place(s, dates[k]);
      assert dates[..k + 1] == dates[..k] + [dates[k]];
      k := k + 1;
    }
    assert dates[..k] == dates;
  }

  method Place(s: seq<int>, y: int) returns (r: seq<int>)
    requires Ascending(s) && y !in s
    ensures |r| == |s| + 1 && Ascending(r) && forall x :: x in r <==> x in s || x == y
  {
    var k := 0;
    while k < |s| && s[k] < y
      invariant k <= |s| && forall i :: 0 <= i < k ==> s[i] < y
    {
      k := k + 1;
    }
    r := s[..k] + [y] + s[k..];
    Placed(s, y, k);
  }

  lemma Placed(s: seq<int>, y: int, k: nat)
    requires Ascending(s) && k <= |s| && (forall i :: 0 <= i < k ==> s[i] < y) && (k < |s| ==> y < s[k])
    ensures Ascending(s[..k] + [y] + s[k..])
    ensures forall x :: x in s[..k] + [y] + s[k..] <==> x in s || x == y
  {
    var r := s[..k] + [y] + s[k..];
    assert forall i :: 0 <= i < |r| ==> r[i] == if i < k then s[i] else if i == k then y else s[i - 1];
    assert s == s[..k] + s[k..];
  }

  /** The runs a non-empty set of years is printed as; an empty set makes pop fail. */
  method DateRuns(dates: seq<int>) returns (r: Result<seq<Run>, ()>)
    requires Distinct(dates)
    ensures r.Err? <==> dates == []
    ensures r.Ok? ==> r.value != [] && Gapped(r.value) && forall y :: y in dates <==> Covers(r.value, y)
  {
    var s := SortYears(dates);
    if s == [] {
      return Err(());
    }
    var done: seq<Run>, first, second, k := [], s[0], s[0], 1;
    Append(done, first);
    assert s[..1] == [first];
    while k < |s|
      invariant 1 <= k <= |s| && second == s[k - 1]
      invariant Gapped(done + [Run(first, second)])
      invariant (done + [Run(first, second)])[|done|] == Run(first, second)
      invariant forall y :: y in s[..k] <==> Covers(done + [Run(first, second)], y)
    {
      ghost var runs := done + [Run(first, second)];
      if s[k] == second + 1 {
        Extend(done, first, second);
        second := s[k];
      } else {
        forall i | 0 <= i < |runs| ensures runs[i].last + 1 < s[k] {
          assert runs[|done|].last == second;
          assert i < |done| ==> runs[i].last + 1 < runs[|done|].first <= second;
        }
        Append(done + [Run(first, second)], s[k]);
        done, first, second := done + [Run(first, second)], s[k], s[k];
      }
      assert s[..k + 1] == s[..k] + [s[k]];
      k := k + 1;
    }
    assert s[..k] == s;
    r := Ok(done + [Run(first, second)]);
  }

  lemma Extend(done: seq<Run>, first: int, second: int)
    requires Gapped(done + [Run(first, second)])
    ensures Gapped(done + [Run(first, second + 1)])
    ensures forall y :: Covers(done + [Run(first, second + 1)], y) <==>
                        Covers(done + [Run(first, second)], y) || y == second + 1
  {
    var a, b := done + [Run(first, second)], done + [Run(first, second + 1)];
    forall i | 0 <= i < |a| ensures b[i].first == a[i].first && (i < |done| ==> b[i] == a[i]) {}
    forall y ensures Covers(b, y) <==> Covers(a, y) || y == second + 1 {
      if Covers(a, y) {
        var i :| 0 <= i < |a| && Within(a[i], y);
        assert Within(b[i], y);
      }
      if Covers(b, y) {
        var i :| 0 <= i < |b| && Within(b[i], y);
        assert y != second + 1 ==> Within(a[i], y);
      }
      assert a[|done|] == Run(first, second);
      assert Within(b[|done|], second + 1);
    }
  }

  lemma Append(runs: seq<Run>, year: int)
    requires Gapped(runs) && (forall i :: 0 <= i < |runs| ==> runs[i].last + 1 < year)
    ensures Gapped(runs + [Run(year, year)])
    ensures forall y :: Covers(runs + [Run(year, year)], y) <==> Covers(runs, y) || y == year
  {
    var b := runs + [Run(year, year)];
    forall y ensures Covers(b, y) <==> Covers(runs, y) || y == year {
      if Covers(runs, y) {
        var i :| 0 <= i < |runs| && Within(runs[i], y);
        assert Within(b[i], y);
      }
      if Covers(b, y) {
        var i :| 0 <= i < |b| && Within(b[i], y);
        assert i < |runs| ==> Within(runs[i], y);
      }
      assert Within(b[|runs|], year);
    }
  }

  method DateStr(dates: seq<int>) returns (text: Result<string, ()>, ghost runs: seq<Run>)
    requires Distinct(dates)
    ensures text.Err? <==> dates == []
    ensures text.Ok? ==> runs != [] && Gapped(runs) && (forall y :: y in dates <==> Covers(runs, y)) &&
                         text.value == Join(PrintRuns(runs))
  {
    var r := DateRuns(dates);
    match r
    case Err(e) =>
      text, runs := Err(e), [];
    case Ok(rs) =>
      text, runs := Ok(Join(PrintRuns(rs))), rs;
  }

  /** Gapped runs are exactly the maximal runs of consecutive years: each lies in the set and neither
      neighbour does. */
  lemma RunsMaximal(runs: seq<Run>, i: nat)
    requires Gapped(runs) && i < |runs|
    ensures forall y :: Within(runs[i], y) ==> Covers(runs, y)
    ensures !Covers(runs, runs[i].first - 1) && !Covers(runs, runs[i].last + 1)
  {
    forall j | 0 <= j < |runs|
      ensures !Within(runs[j], runs[i].first - 1) && !Within(runs[j], runs[i].last + 1)
    {
      assert j < i ==> runs[j].last + 1 < runs[i].first;
      assert i < j ==> runs[i].last + 1 < runs[j].first;
    }
  }

  // ---- reading back what was printed ----

  predicate NoComma(s: string) {
    forall i :: 0 <= i < |s| ==> s[i] != ','
  }

  lemma {:induction false} SplitHead(part: string, rest: string)
    requires NoComma(part)
    ensures Split(part + [','] + rest) == [part] + Split(rest)
  {
    var s := part + [','] + rest;
    if part == [] {
      assert s[1..] == rest;
    } else {
      assert s[1..] == part[1..] + [','] + rest;
      SplitHead(part[1..], rest);
      assert [part[0]] + part[1..] == part;
      assert ([part[1..]] + Split(rest))[1..] == Split(rest);
    }
  }

  lemma {:induction false} SplitOne(part: string)
    requires NoComma(part)
    ensures Split(part) == [part]
  {
    if part != [] {
      SplitOne(part[1..]);
      assert [part[0]] + part[1..] == part;
    }
  }

  /** Splitting what was joined gives the parts back. */
  lemma {:induction false} SplitJoin(parts: seq<string>)
    requires parts != [] && forall i :: 0 <= i < |parts| ==> NoComma(parts[i])
    ensures Split(Join(parts)) == parts
  {
    if |parts| == 1 {
      SplitOne(parts[0]);
    } else {
      SplitJoin(parts[1..]);
      SplitHead(parts[0], Join(parts[1..]));
      assert [parts[0]] + parts[1..] == parts;
    }
  }

  /** Digits and dashes only: what runs are printed with. */
  predicate Plain(s: string) {
    s != [] && forall i :: 0 <= i < |s| ==> IsDigit(s[i]) || s[i] == '-'
  }

  lemma PlainText(s: string)
    requires Plain(s)
    ensures NoComma(s) && Strip(s) == s
  {
    assert !IsSpace(s[0]) && !IsSpace(s[|s| - 1]);
  }

  lemma PlainInt(n: int)
    ensures Plain(PrintInt(n))
  {
    if n < 0 {
      ReadPrint(-n);
    } else {
      ReadPrint(n);
    }
  }

  lemma PlainRun(r: Run)
    ensures Plain(PrintRun(r))
  {
    PlainInt(r.first);
    PlainInt(r.last);
  }

  // How long a number prints.

  lemma OneDigitLess(n: nat)
    ensures |Print(n)| == if n < 10 then 1 else 1 + |Print(n / 10)|
  {
  }

  lemma PrintedLength(n: nat)
    ensures |Print(n)| <= 3 <==> n < 1000
    ensures |Print(n)| == 4 <==> 1000 <= n < 10000
  {
    OneDigitLess(n);
    OneDigitLess(n / 10);
    OneDigitLess(n / 10 / 10);
    OneDigitLess(n / 10 / 10 / 10);
    OneDigitLess(n / 10 / 10 / 10 / 10);
  }

  /** A proper prefix of a printed number reads as something smaller. */
  lemma {:induction false} PrefixSmaller(n: nat, k: nat)
    requires k < |Print(n)| && n > 0
    ensures AllDigits(Print(n)[..k]) && Read(Print(n)[..k], 0) < n
  {
    if n < 10 {
      assert Print(n)[..k] == [];
    } else {
      ReadPrint(n / 10);
      if k == |Print(n / 10)| {
        assert Print(n)[..k] == Print(n / 10);
      } else {
        assert Print(n)[..k] == Print(n / 10)[..k];
        PrefixSmaller(n / 10, k);
      }
    }
  }

  lemma ParsePrinted(n: int)
    ensures ParseInt(PrintInt(n)) == Some(n)
  {
    if n < 0 {
      ReadPrint(-n);
      assert PrintInt(n)[1..] == Print(-n);
    } else {
      ReadPrint(n);
      assert IsDigit(Print(n)[0]);
    }
  }

  /** A single year stands for itself. */
  lemma SingleStands(n: int, y: int)
    ensures Stands(PrintInt(n), y) <==> y == n
  {
    ParsePrinted(n);
    NoRangeInNumber(n);
  }

  lemma NoRangeInNumber(n: int)
    ensures MatchRange(PrintInt(n)) == None
  {
    var s := PrintInt(n);
    if n >= 0 {
      ReadPrint(n);
      if |s| > 4 {
        assert IsDigit(s[4..][0]);
      }
    }
  }

  predicate FourDigits(n: int) {
    1000 <= n <= 9999
  }

  /** A range stands for its run when both ends have four digits. */
  lemma RangeStands(r: Run, y: int)
    requires r.first < r.last && FourDigits(r.first) && FourDigits(r.last)
    ensures Stands(PrintRun(r), y) <==> Within(r, y)
  {
    var s := PrintRun(r);
    ReadPrint(r.first);
    ReadPrint(r.last);
    PrintedLength(r.first);
    PrintedLength(r.last);
    assert s[..4] == Print(r.first);
    assert s[4..] == ['-'] + Print(r.last);
    assert SkipSpaces(s[4..]) == s[4..];
    assert s[4..][1..] == Print(r.last);
    assert SkipSpaces(Print(r.last)) == Print(r.last);
    assert Print(r.last)[..4] == Print(r.last);
  }

  /** Otherwise the range loses its last year and adds none. */
  lemma RangeLost(r: Run, y: int)
    requires r.first < r.last && !(FourDigits(r.first) && FourDigits(r.last))
    ensures Stands(PrintRun(r), y) ==> Within(r, y) && y != r.last
  {
    var s := PrintRun(r);
    DashInside(r);
    if r.first < 0 {
      assert s[0] == '-';
    } else {
      ReadPrint(r.first);
      PrintedLength(r.first);
      var n := |Print(r.first)|;
      if n < 4 {
        assert s[n] == '-';
        assert |s| >= 4 ==> s[..4][n] == '-';
      } else if n > 4 {
        assert s[4..][0] == Print(r.first)[4];
      } else {
        LastTooLong(r, y);
      }
    }
  }

  lemma DashInside(r: Run)
    requires r.first < r.last
    ensures ParseInt(PrintRun(r)) == None
  {
    var s := PrintRun(r);
    PlainInt(r.first);
    var n := |PrintInt(r.first)|;
    assert s[n] == '-' && n > 0;
    var t := if s[0] == '-' || s[0] == '+' then s[1..] else s;
    assert t == s ==> t[n] == '-';
    assert t == s[1..] ==> t[n - 1] == '-';
  }

  lemma LastTooLong(r: Run, y: int)
    requires 1000 <= r.first < 10000 && r.first < r.last && r.last >= 10000
    ensures Stands(PrintRun(r), y) ==> Within(r, y) && y != r.last
  {
    var s := PrintRun(r);
    ReadPrint(r.first);
    ReadPrint(r.last);
    PrintedLength(r.first);
    PrintedLength(r.last);
    PrefixSmaller(r.last, 4);
    assert s[..4] == Print(r.first);
    assert s[4..] == ['-'] + Print(r.last);
    assert SkipSpaces(s[4..]) == s[4..];
    assert s[4..][1..] == Print(r.last);
    assert SkipSpaces(Print(r.last)) == Print(r.last);
    DashInside(r);
  }

  /** What an item stands for. */
  lemma RunStands(r: Run, y: int)
    requires r.first <= r.last
    ensures Stands(PrintRun(r), y) ==> Within(r, y)
    ensures r.first == r.last || (FourDigits(r.first) && FourDigits(r.last)) ==>
              (Stands(PrintRun(r), y) <==> Within(r, y))
    ensures r.first < r.last && !(FourDigits(r.first) && FourDigits(r.last)) ==> !Stands(PrintRun(r), r.last)
  {
    if r.first == r.last {
      SingleStands(r.first, y);
    } else if FourDigits(r.first) && FourDigits(r.last) {
      RangeStands(r, y);
    } else {
      RangeLost(r, y);
      RangeLost(r, r.last);
    }
  }

  lemma PrintedItems(runs: seq<Run>)
    requires runs != []
    ensures Split(Join(PrintRuns(runs))) == PrintRuns(runs)
    ensures forall i :: 0 <= i < |runs| ==> Strip(PrintRuns(runs)[i]) == PrintRun(runs[i])
  {
    forall i | 0 <= i < |runs| ensures NoComma(PrintRuns(runs)[i]) && Strip(PrintRuns(runs)[i]) == PrintRun(runs[i]) {
      PlainRun(runs[i]);
      PlainText(PrintRun(runs[i]));
    }
    SplitJoin(PrintRuns(runs));
  }

  /** What the printed runs are read as. */
  lemma ListedPrinted(runs: seq<Run>, y: int)
    requires runs != []
    ensures Listed(Join(PrintRuns(runs)), y) <==> exists i :: 0 <= i < |runs| && Stands(PrintRun(runs[i]), y)
  {
    PrintedItems(runs);
    var items := Split(Join(PrintRuns(runs)));
    if i :| 0 <= i < |runs| && Stands(PrintRun(runs[i]), y) {
      assert Stands(Strip(items[i]), y);
    }
    if i :| 0 <= i < |items| && Stands(Strip(items[i]), y) {
      assert Stands(PrintRun(runs[i]), y);
    }
  }

  /** Any two neighbouring years of the set have four digits. */
  ghost predicate Neighbours(runs: seq<Run>) {
    forall y :: Covers(runs, y) && Covers(runs, y + 1) ==> FourDigits(y) && FourDigits(y + 1)
  }

  /** Printing a set of years and reading it back gives the same set exactly when all neighbouring years
      in it have four digits. */
  lemma RoundTripExact(runs: seq<Run>)
    requires runs != [] && Gapped(runs)
    ensures (forall y :: Listed(Join(PrintRuns(runs)), y) <==> Covers(runs, y)) <==> Neighbours(runs)
  {
    if Neighbours(runs) {
      forall y ensures Listed(Join(PrintRuns(runs)), y) <==> Covers(runs, y) {
        NeighboursRoundTrip(runs, y);
      }
    } else {
      var y := LostYear(runs);
      assert !(Listed(Join(PrintRuns(runs)), y) <==> Covers(runs, y));
    }
  }

  lemma NeighboursRoundTrip(runs: seq<Run>, y: int)
    requires runs != [] && Gapped(runs) && Neighbours(runs)
    ensures Listed(Join(PrintRuns(runs)), y) <==> Covers(runs, y)
  {
    ListedPrinted(runs, y);
    forall i | 0 <= i < |runs| ensures Stands(PrintRun(runs[i]), y) <==> Within(runs[i], y) {
      var r := runs[i];
      if r.first < r.last {
        assert Within(r, r.first) && Within(r, r.first + 1) && Within(r, r.last - 1) && Within(r, r.last);
        assert Covers(runs, r.first) && Covers(runs, r.first + 1);
        assert Covers(runs, r.last - 1) && Covers(runs, r.last - 1 + 1);
      }
      RunStands(r, y);
    }
  }

  lemma LostYear(runs: seq<Run>) returns (y: int)
    requires runs != [] && Gapped(runs) && !Neighbours(runs)
    ensures Covers(runs, y) && !Listed(Join(PrintRuns(runs)), y)
  {
    var i := BadRun(runs);
    y := runs[i].last;
    assert Within(runs[i], y);
    ListedPrinted(runs, y);
    forall j | 0 <= j < |runs| ensures !Stands(PrintRun(runs[j]), y) {
      RunStands(runs[j], y);
      if j != i {
        assert !Within(runs[j], y);
      }
    }
  }

  lemma BadRun(runs: seq<Run>) returns (i: nat)
    requires Gapped(runs) && !Neighbours(runs)
    ensures i < |runs| && runs[i].first < runs[i].last && !(FourDigits(runs[i].first) && FourDigits(runs[i].last))
  {
    var y :| Covers(runs, y) && Covers(runs, y + 1) && !(FourDigits(y) && FourDigits(y + 1));
    var a: nat :| a < |runs| && Within(runs[a], y);
    var b: nat :| b < |runs| && Within(runs[b], y + 1);
    assert a == b;
    i := a;
    assert FourDigits(runs[i].first) && FourDigits(runs[i].last) ==> FourDigits(y) && FourDigits(y + 1);
  }

  /** Printing the years of a set and reading the text back gives the same set exactly when all neighbouring
      years in it have four digits. */
  method PrintAndRead(dates: seq<int>) returns (r: Result<set<int>, ()>)
    requires Distinct(dates)
    ensures r.Err? <==> dates == []
    ensures r.Ok? ==>
              ((forall y :: y in r.value <==> y in dates) <==>
               forall y :: y in dates && y + 1 in dates ==> FourDigits(y) && FourDigits(y + 1))
  {
    var text, runs := DateStr(dates);
    if text.Err? {
      return Err(());
    }
    var years := ProcessDates(text.value);
    RoundTripExact(runs);
    r := Ok(years);
  }
}
