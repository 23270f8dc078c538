/**
  BitcoinExchange: the date handling and the rate lookup of the exchange
  program. Dates are `YYYY-MM-DD` strings checked against the Gregorian
  calendar; the rates are kept in an ordered map from date strings to rates,
  and a query date is answered with the rate of the latest date not after it.
 */
module Exchange {
  import opened Wrappers
  import opened Chars

  // ---------------------------------------------------------------------------
  // trim
  // ---------------------------------------------------------------------------

  predicate AllSpaces(s: string) {
    forall i :: 0 <= i < |s| ==> IsSpace(s[i])
  }

  /** `s` without its leading whitespace. */
  function TrimLeft(s: string): string {
    if |s| > 0 && IsSpace(s[0]) then TrimLeft(s[1..]) else s
  }

  /** `s` without its trailing whitespace. */
  function TrimRight(s: string): string {
    if |s| > 0 && IsSpace(s[|s| - 1]) then TrimRight(s[..|s| - 1]) else s
  }

  /** `TrimLeft` drops a whitespace prefix and leaves no whitespace in front. */
  lemma {:induction false} TrimLeftShape(s: string)
    ensures var r := TrimLeft(s);
            |r| <= |s| && r == s[|s| - |r|..] && AllSpaces(s[..|s| - |r|]) &&
            (|r| > 0 ==> !IsSpace(r[0]))
    decreases |s|
  {
    if |s| > 0 && IsSpace(s[0]) {
      TrimLeftShape(s[1..]);
      var r := TrimLeft(s);
      assert s[1..][|s| - 1 - |r|..] == s[|s| - |r|..];
      assert AllSpaces(s[..|s| - |r|]) by {
        forall i | 0 < i < |s| - |r| ensures IsSpace(s[i]) {
          assert s[i] == s[1..][..|s| - 1 - |r|][i - 1];
        }
      }
    }
  }

  /** `TrimRight` drops a whitespace suffix and leaves no whitespace at the end. */
  lemma {:induction false} TrimRightShape(s: string)
    ensures var r := TrimRight(s);
            |r| <= |s| && r == s[..|r|] && AllSpaces(s[|r|..]) &&
            (|r| > 0 ==> !IsSpace(r[|r| - 1]))
    decreases |s|
  {
    if |s| > 0 && IsSpace(s[|s| - 1]) {
      TrimRightShape(s[..|s| - 1]);
      var r := TrimRight(s);
      assert s[..|s| - 1][..|r|] == s[..|r|];
      assert AllSpaces(s[|r|..]) by {
        forall i | |r| <= i < |s| - 1 ensures IsSpace(s[i]) {
          assert s[i] == s[..|s| - 1][|r|..][i - |r|];
        }
      }
    }
  }

  /** What `trim` returns: whitespace removed at both ends. */
  function Trimmed(s: string): string {
    TrimRight(TrimLeft(s))
  }

  /**
    `trim`: moves `start` forward over leading whitespace, then `end` back
    over trailing whitespace, and returns the characters in between.
   */
  method Trim(s: string) returns (r: string)
    ensures r == Trimmed(s)
  {
    var start := 0;
    while start < |s| && IsSpace(s[start])
      invariant start <= |s|
      invariant TrimLeft(s[start..]) == TrimLeft(s)
    {
      assert s[start..][1..] == s[start + 1..];
      start := start + 1;
    }
    ghost var t := s[start..];
    var end := |s|;
    assert t[..end - start] == t;
    while end > start && IsSpace(s[end - 1])
      invariant start <= end <= |s|
      invariant TrimRight(t[..end - start]) == TrimRight(t)
    {
      assert t[..end - start][..end - start - 1] == t[..end - 1 - start];
      end := end - 1;
    }
    assert s[start..end] == t[..end - start];
    r := s[start..end];
  }

  /**
    The trimmed string is a contiguous part of `s`, everything cut away is
    whitespace, and it neither starts nor ends with whitespace.
   */
  lemma TrimmedIsSlice(s: string)
    ensures |Trimmed(s)| <= |TrimLeft(s)| <= |s|
    ensures var r, i := Trimmed(s), |s| - |TrimLeft(s)|;
            r == s[i..i + |r|] && AllSpaces(s[..i]) && AllSpaces(s[i + |r|..])
    ensures var r := Trimmed(s); |r| > 0 ==> !IsSpace(r[0]) && !IsSpace(r[|r| - 1])
  {
    var l := TrimLeft(s);
    TrimLeftShape(s);
    TrimRightShape(l);
    var r := TrimRight(l);
    var i := |s| - |l|;
    assert r == s[i..i + |r|] by {
      assert l[..|r|] == s[i..i + |r|];
    }
    assert AllSpaces(s[i + |r|..]) by {
      assert l[|r|..] == s[i + |r|..];
    }
    assert |r| > 0 ==> r[0] == l[0];
  }

  /** Trimming twice is trimming once. */
  lemma TrimmedIdempotent(s: string)
    ensures Trimmed(Trimmed(s)) == Trimmed(s)
  {
    var r := Trimmed(s);
    TrimmedIsSlice(s);
    assert TrimLeft(r) == r;
    assert TrimRight(r) == r;
  }

  // ---------------------------------------------------------------------------
  // isDigits
  // ---------------------------------------------------------------------------

  /** `isDigits`: a non-empty string of decimal digits. */
  method IsDigits(s: string) returns (ok: bool)
    ensures ok <==> |s| > 0 && AllDigits(s)
  {
    for i := 0 to |s|
      invariant AllDigits(s[..i])
    {
      if !IsDigit(s[i]) {
        return false;
      }
      assert s[..i + 1] == s[..i] + [s[i]];
    }
    assert s[..|s|] == s;
    return |s| > 0;
  }

  // ---------------------------------------------------------------------------
  // Calendar
  // ---------------------------------------------------------------------------

  /**
    `isLeap`, the Gregorian rule. A remainder is zero under C++'s truncating
    `%` exactly when it is zero under Dafny's Euclidean one, so the tests
    carry over for negative years too.
   */
  predicate IsLeap(y: int)
    ensures IsLeap(y) ==> y % 4 == 0
    ensures y % 400 == 0 ==> IsLeap(y)
    ensures y % 100 == 0 && y % 400 != 0 ==> !IsLeap(y)
    ensures y % 4 == 0 && y % 100 != 0 ==> IsLeap(y)
  {
    (y % 4 == 0 && y % 100 != 0) || y % 400 == 0
  }

  /** The days of each month in a common year, January first. */
  const MonthLengths: seq<int> := [31, 28, 31, 30, 31, 30, 31, 31, 30, 31, 30, 31]

  /** `daysInMonth`: the month's length in year `y`; 0 for a month outside 1..12. */
  function DaysInMonth(y: int, m: int): (d: int)
    ensures m == 2 ==> d == if IsLeap(y) then 29 else 28
    ensures m in {1, 3, 5, 7, 8, 10, 12} ==> d == 31
    ensures m in {4, 6, 9, 11} ==> d == 30
    ensures !(1 <= m <= 12) ==> d == 0
  {
    if m == 2 then MonthLengths[1] + (if IsLeap(y) then 1 else 0)
    else if 1 <= m <= 12 then MonthLengths[m - 1]
    else 0
  }

  /** The days of months `1..m` of year `y`. */
  function DaysThrough(y: int, m: nat): int {
    if m == 0 then 0 else DaysThrough(y, m - 1) + DaysInMonth(y, m)
  }

  /** The months add up to 366 days in a leap year and 365 in any other. */
  lemma YearLength(y: int)
    ensures DaysThrough(y, 12) == if IsLeap(y) then 366 else 365
  {
    var leap := if IsLeap(y) then 1 else 0;
    assert DaysThrough(y, 1) == 31;
    assert DaysThrough(y, 3) == 90 + leap;
    assert DaysThrough(y, 5) == 151 + leap;
    assert DaysThrough(y, 7) == 212 + leap;
    assert DaysThrough(y, 9) == 273 + leap;
    assert DaysThrough(y, 11) == 334 + leap;
  }

  /** The leap rule repeats every 400 years. */
  lemma LeapCycle(y: int)
    ensures IsLeap(y + 400) == IsLeap(y)
  {
    assert (y + 400) % 4 == y % 4;
    assert (y + 400) % 100 == y % 100;
    assert (y + 400) % 400 == y % 400;
  }

  // ---------------------------------------------------------------------------
  // parseYMD and isValidDate
  // ---------------------------------------------------------------------------

  /**
    `parseYMD`: a string of length 10 with '-' at indices 4 and 7 and digits in
    the three fields gives the fields' decimal values (what `atoi` computes on
    an all-digit field); anything else is rejected.
   */
  function ParseYMD(d: string): (r: Option<(int, int, int)>)
    ensures r.Some? <==> |d| == 10 && d[4] == '-' && d[7] == '-' &&
                         AllDigits(d[..4]) && AllDigits(d[5..7]) && AllDigits(d[8..])
    ensures r.Some? ==> 0 <= r.value.0 <= 9999 && 0 <= r.value.1 <= 99 && 0 <= r.value.2 <= 99
  {
    if |d| != 10 || d[4] != '-' || d[7] != '-' then None
    else
      var ys, ms, ds := d[..4], d[5..7], d[8..];
      if !AllDigits(ys) || !AllDigits(ms) || !AllDigits(ds) then None
      else
        Some((DecimalValue(ys), DecimalValue(ms), DecimalValue(ds)))
  }

  /** `isValidDate`: the string parses and names a day of the calendar. */
  function IsValidDate(date: string): (b: bool)
    ensures b ==> ParseYMD(date).Some?
  {
    match ParseYMD(date)
    case None => false
    case Some((y, m, d)) => 1 <= m <= 12 && 1 <= d <= DaysInMonth(y, m)
  }

  /** `n` written with exactly `w` decimal digits, zero-padded on the left. */
  function Digits(n: nat, w: nat): (s: string)
    ensures |s| == w && AllDigits(s)
  {
    if w == 0 then "" else Digits(n / 10, w - 1) + [DigitChar(n % 10)]
  }

  /** The `YYYY-MM-DD` text of a date. */
  function FormatYMD(y: nat, m: nat, d: nat): string {
    Digits(y, 4) + "-" + Digits(m, 2) + "-" + Digits(d, 2)
  }

  /** Reading back the digits gives the number, when it fits. */
  lemma {:induction false} DecimalOfDigits(n: nat, w: nat)
    requires n < Pow10(w)
    ensures DecimalValue(Digits(n, w)) == n
    decreases w
  {
    if w > 0 {
      var s := Digits(n, w);
      assert s[..w - 1] == Digits(n / 10, w - 1);
      DecimalOfDigits(n / 10, w - 1);
    }
  }

  /** Writing the value of a digit string with its own width gives it back. */
  lemma {:induction false} DigitsOfDecimal(s: string)
    requires AllDigits(s)
    ensures Digits(DecimalValue(s), |s|) == s
    decreases |s|
  {
    if |s| > 0 {
      var t := s[..|s| - 1];
      var c := s[|s| - 1];
      var n := DecimalValue(s);
      assert AllDigits(t);
      assert n / 10 == DecimalValue(t) && n % 10 == DigitValue(c);
      DigitsOfDecimal(t);
      assert DigitChar(DigitValue(c)) == c;
      assert s == t + [c];
    }
  }

  /** A date written with zero-padded fields parses back to its fields. */
  lemma ParseFormatted(y: nat, m: nat, d: nat)
    requires y <= 9999 && m <= 99 && d <= 99
    ensures ParseYMD(FormatYMD(y, m, d)) == Some((y, m, d))
  {
    var ys, ms, ds := Digits(y, 4), Digits(m, 2), Digits(d, 2);
    var s := FormatYMD(y, m, d);
    assert s[..4] == ys && s[4] == '-' && s[5..7] == ms && s[7] == '-' && s[8..] == ds;
    assert Pow10(2) == 100 && Pow10(4) == 10000;
    DecimalOfDigits(y, 4);
    DecimalOfDigits(m, 2);
    DecimalOfDigits(d, 2);
  }

  /** Every string the parser accepts is the zero-padded text of its fields. */
  lemma FormattedParsed(s: string)
    requires ParseYMD(s).Some?
    ensures var (y, m, d) := ParseYMD(s).value; FormatYMD(y, m, d) == s
  {
    DigitsOfDecimal(s[..4]);
    DigitsOfDecimal(s[5..7]);
    DigitsOfDecimal(s[8..]);
    assert s == s[..4] + "-" + s[5..7] + "-" + s[8..];
  }

  /** A formatted date is valid exactly when it names a day of the calendar. */
  lemma ValidFormatted(y: nat, m: nat, d: nat)
    requires y <= 9999 && m <= 99 && d <= 99
    ensures IsValidDate(FormatYMD(y, m, d)) <==> 1 <= m <= 12 && 1 <= d <= DaysInMonth(y, m)
  {
    ParseFormatted(y, m, d);
  }

  /** The valid dates are exactly the zero-padded texts of the days of the calendar. */
  lemma ValidDates(s: string)
    ensures IsValidDate(s) <==>
            exists y: nat, m: nat, d: nat :: y <= 9999 && 1 <= m <= 12 && 1 <= d <= DaysInMonth(y, m) && s == FormatYMD(y, m, d)
  {
    if IsValidDate(s) {
      FormattedParsed(s);
      var (y, m, d) := ParseYMD(s).value;
      assert y <= 9999 && 1 <= m <= 12 && 1 <= d <= DaysInMonth(y, m) && s == FormatYMD(y, m, d);
    }
    forall y: nat, m: nat, d: nat | y <= 9999 && 1 <= m <= 12 && 1 <= d <= DaysInMonth(y, m) && s == FormatYMD(y, m, d)
      ensures IsValidDate(s)
    {
      ValidFormatted(y, m, d);
    }
  }

  // ---------------------------------------------------------------------------
  // The ordered rate map
  // ---------------------------------------------------------------------------

  /** `std::string`'s `operator<`: lexicographic order on the characters. */
  predicate Less(a: string, b: string)
    decreases |a|
  {
    if |a| == 0 then |b| > 0
    else if |b| == 0 then false
    else a[0] < b[0] || (a[0] == b[0] && Less(a[1..], b[1..]))
  }

  /**
    The order in the words of the C++ standard: `a` is a proper prefix of
    `b`, or at the first position where they differ `a` has the smaller
    character.
   */
  lemma {:induction false} LessLexicographic(a: string, b: string)
    ensures Less(a, b) <==>
              a < b || exists k :: 0 <= k < |a| && k < |b| && a[..k] == b[..k] && a[k] < b[k]
    decreases |a|
  {
    if |a| > 0 && |b| > 0 {
      if a[0] < b[0] {
        assert a[..0] == b[..0];
      } else if a[0] == b[0] {
        var a', b' := a[1..], b[1..];
        LessLexicographic(a', b');
        if Less(a', b') && !(a' < b') {
          var k :| 0 <= k < |a'| && k < |b'| && a'[..k] == b'[..k] && a'[k] < b'[k];
          assert a[..k + 1] == [a[0]] + a'[..k] && b[..k + 1] == [b[0]] + b'[..k];
        }
        if a < b {
          assert a' < b';
        }
        forall k | 0 < k < |a| && k < |b| && a[..k] == b[..k] && a[k] < b[k]
          ensures Less(a', b')
        {
          assert a'[..k - 1] == a[1..k] && b'[..k - 1] == b[1..k];
          assert a[1..k] == a[..k][1..];
        }
      } else {
        forall k | 0 < k < |a| && k < |b|
          ensures a[..k] != b[..k]
        {
          assert a[..k][0] == a[0] && b[..k][0] == b[0];
        }
      }
    }
  }

  lemma {:induction false} LessIrreflexive(a: string)
    ensures !Less(a, a)
    decreases |a|
  {
    if |a| > 0 {
      LessIrreflexive(a[1..]);
    }
  }

  lemma {:induction false} LessTransitive(a: string, b: string, c: string)
    requires Less(a, b) && Less(b, c)
    ensures Less(a, c)
    decreases |a|
  {
    if |a| > 0 && a[0] == b[0] && b[0] == c[0] {
      LessTransitive(a[1..], b[1..], c[1..]);
    }
  }

  lemma {:induction false} LessTotal(a: string, b: string)
    ensures Less(a, b) || a == b || Less(b, a)
    decreases |a|
  {
    if |a| > 0 && |b| > 0 && a[0] == b[0] {
      LessTotal(a[1..], b[1..]);
      if a[1..] == b[1..] {
        assert a == [a[0]] + a[1..] && b == [b[0]] + b[1..];
      }
    }
  }

  /** Keys in strictly increasing order: the iteration order of a `std::map`. */
  predicate Ordered<R>(entries: seq<(string, R)>) {
    forall i, j :: 0 <= i < j < |entries| ==> Less(entries[i].0, entries[j].0)
  }

  /** `std::lower_bound` on the keys: the first entry whose key is not below `key`. */
  function FirstNotBelow<R>(entries: seq<(string, R)>, key: string): (p: nat)
    ensures p <= |entries|
    ensures forall i :: 0 <= i < p ==> Less(entries[i].0, key)
    ensures p < |entries| ==> !Less(entries[p].0, key)
  {
    if |entries| == 0 || !Less(entries[0].0, key) then 0
    else 1 + FirstNotBelow(entries[1..], key)
  }

  /** In an ordered table, every entry from the lower bound on is not below `key`. */
  lemma NotBelowFrom<R>(entries: seq<(string, R)>, key: string, p: nat, i: int)
    requires Ordered(entries) && p == FirstNotBelow(entries, key)
    requires p <= i < |entries|
    ensures !Less(entries[i].0, key)
  {
    if i > p && Less(entries[i].0, key) {
      LessTransitive(entries[p].0, entries[i].0, key);
    }
  }

  /**
    The exchange's rate table, `_rates`: a `std::map` from date strings to
    rates, held as its entries in key order. The rates are of any type: the
    lookup never computes with them.
   */
  class BitcoinExchange<Rate> {
    var entries: seq<(string, Rate)>

    ghost predicate Valid()
      reads this
    {
      Ordered(entries)
    }

    /** The map the entries stand for. */
    ghost function Contents(): map<string, Rate>
      reads this
    {
      AsMap(entries)
    }

    /** The default constructor: no rates yet. */
    constructor ()
      ensures Valid() && entries == []
    {
      entries := [];
    }

    /**
      `_rates[date] = rate`, as `loadCSV` stores each accepted line: the
      entry for `date` is replaced, or a new one is put in its place in the
      key order.
     */
    method Store(date: string, rate: Rate)
      requires Valid()
      modifies this
      ensures Valid()
      ensures Contents() == old(Contents())[date := rate]
      ensures GetRateForDate(date) == Some(rate)
    {
      var p := FirstNotBelow(entries, date);
      if p < |entries| && entries[p].0 == date {
        StoreReplace(entries, p, rate);
        entries := entries[p := (date, rate)];
      } else {
        StoreInsert(entries, date, p, rate);
        entries := entries[..p] + [(date, rate)] + entries[p..];
      }
    }

    /**
      `getRateForDate`: the rate stored for `date` itself, else the rate of
      the greatest date before it, and nothing when every stored date is
      later. The table is not changed.
     */
    function GetRateForDate(date: string): (r: Option<Rate>)
      reads this
      requires Valid()
      ensures r.None? <==> forall i :: 0 <= i < |entries| ==> Less(date, entries[i].0)
      ensures forall i :: 0 <= i < |entries| && entries[i].0 == date ==> r == Some(entries[i].1)
      ensures r.Some? ==>
                exists i :: 0 <= i < |entries| && r.value == entries[i].1 && !Less(date, entries[i].0) &&
                  (forall k :: 0 <= k < |entries| && !Less(date, entries[k].0) ==> !Less(entries[i].0, entries[k].0))
      ensures date in Contents() ==> r == Some(Contents()[date])
    {
      AsMapLookup(entries, date);
      var p := FirstNotBelow(entries, date);
      if p < |entries| && entries[p].0 == date then
        FloorAtKey(entries, date, p);
        Some(entries[p].1)
      else if p == 0 then
        NoFloor(entries, date);
        None
      else
        FloorBefore(entries, date, p);
        Some(entries[p - 1].1)
    }
  }

  /** Past the lower bound, when it is not `key` itself, every entry is above `key`. */
  lemma AboveFrom<R>(entries: seq<(string, R)>, key: string, p: nat)
    requires Ordered(entries) && p == FirstNotBelow(entries, key)
    requires p < |entries| ==> entries[p].0 != key
    ensures forall i :: p <= i < |entries| ==> Less(key, entries[i].0)
  {
    if p < |entries| {
      LessTotal(key, entries[p].0);
      forall i | p < i < |entries|
        ensures Less(key, entries[i].0)
      {
        LessTransitive(key, entries[p].0, entries[i].0);
      }
    }
  }

  lemma {:induction false} LessAsymmetric(a: string, b: string)
    requires Less(a, b)
    ensures !Less(b, a)
    decreases |a|
  {
    if |a| > 0 && a[0] == b[0] {
      LessAsymmetric(a[1..], b[1..]);
    }
  }

  /** The lookup's exact-key case: no other entry has the key. */
  lemma FloorAtKey<R>(entries: seq<(string, R)>, date: string, p: nat)
    requires Ordered(entries) && p == FirstNotBelow(entries, date)
    requires p < |entries| && entries[p].0 == date
    ensures !Less(date, entries[p].0)
    ensures forall i :: 0 <= i < |entries| && i != p ==> entries[i].0 != date
  {
    LessIrreflexive(date);
    forall i | 0 <= i < |entries| && i != p
      ensures entries[i].0 != date
    {
      if i > p {
        assert Less(entries[p].0, entries[i].0);
      }
    }
  }

  /** The lookup's empty case: every entry is above the date. */
  lemma NoFloor<R>(entries: seq<(string, R)>, date: string)
    requires Ordered(entries) && FirstNotBelow(entries, date) == 0
    requires |entries| == 0 || entries[0].0 != date
    ensures forall i :: 0 <= i < |entries| ==> Less(date, entries[i].0)
  {
    AboveFrom(entries, date, 0);
  }

  /** The lookup's floor case: the entry just before the lower bound is the greatest below the date. */
  lemma FloorBefore<R>(entries: seq<(string, R)>, date: string, p: nat)
    requires Ordered(entries) && p == FirstNotBelow(entries, date)
    requires 0 < p && (p == |entries| || entries[p].0 != date)
    ensures !Less(date, entries[p - 1].0)
    ensures forall i :: 0 <= i < |entries| ==> entries[i].0 != date
    ensures forall k :: 0 <= k < |entries| && !Less(date, entries[k].0) ==> !Less(entries[p - 1].0, entries[k].0)
  {
    AboveFrom(entries, date, p);
    LessIrreflexive(date);
    LessAsymmetric(entries[p - 1].0, date);
    forall k | 0 <= k < p - 1
      ensures !Less(entries[p - 1].0, entries[k].0)
    {
      LessAsymmetric(entries[k].0, entries[p - 1].0);
    }
    LessIrreflexive(entries[p - 1].0);
  }

  /** The map a table of entries stands for. */
  ghost function AsMap<R>(entries: seq<(string, R)>): map<string, R> {
    if |entries| == 0 then map[] else AsMap(entries[1..])[entries[0].0 := entries[0].1]
  }

  /**
    The map of an ordered table holds exactly the table's keys, each with the
    rate of its entry.
   */
  lemma {:induction false} AsMapLookup<R>(entries: seq<(string, R)>, key: string)
    requires Ordered(entries)
    ensures key in AsMap(entries) <==> exists i :: 0 <= i < |entries| && entries[i].0 == key
    ensures forall i :: 0 <= i < |entries| && entries[i].0 == key ==> AsMap(entries)[key] == entries[i].1
    decreases |entries|
  {
    if |entries| > 0 {
      var tail := entries[1..];
      assert Ordered(tail) by {
        forall i, j | 0 <= i < j < |tail| ensures Less(tail[i].0, tail[j].0) {
          assert tail[i] == entries[i + 1] && tail[j] == entries[j + 1];
        }
      }
      AsMapLookup(tail, key);
      if entries[0].0 == key {
        forall i | 0 < i < |entries| ensures entries[i].0 != key {
          LessIrreflexive(key);
        }
      } else {
        forall i | 0 < i < |entries| ensures entries[i] == tail[i - 1] {
        }
      }
    }
  }

  lemma UpdatesCommute<R>(m: map<string, R>, a: string, u: R, b: string, v: R)
    requires a != b
    ensures m[a := u][b := v] == m[b := v][a := u]
  {
  }

  /** Replacing the rate of an existing key. */
  lemma {:induction false} StoreReplace<R>(entries: seq<(string, R)>, p: nat, rate: R)
    requires Ordered(entries) && p < |entries|
    ensures var e' := entries[p := (entries[p].0, rate)];
            Ordered(e') && AsMap(e') == AsMap(entries)[entries[p].0 := rate]
    decreases p
  {
    var key := entries[p].0;
    var e' := entries[p := (key, rate)];
    assert Ordered(e');
    if p == 0 {
      assert e'[1..] == entries[1..];
    } else {
      assert e'[1..] == entries[1..][p - 1 := (key, rate)];
      StoreReplace(entries[1..], p - 1, rate);
      LessIrreflexive(key);
      assert entries[0].0 != key by {
        assert Less(entries[0].0, entries[p].0);
      }
      UpdatesCommute(AsMap(entries[1..]), key, rate, entries[0].0, entries[0].1);
    }
  }

  /** Putting a new key in its place keeps the keys in order. */
  lemma {:induction false} InsertOrdered<R>(entries: seq<(string, R)>, key: string, p: nat, rate: R)
    requires Ordered(entries) && p == FirstNotBelow(entries, key)
    requires p < |entries| ==> entries[p].0 != key
    ensures Ordered(entries[..p] + [(key, rate)] + entries[p..])
    decreases p
  {
    if p == 0 {
      AboveFrom(entries, key, 0);
      assert entries[..0] + [(key, rate)] + entries[0..] == [(key, rate)] + entries;
      OrderedCons((key, rate), entries);
    } else {
      var tail := entries[1..];
      assert Ordered(tail);
      InsertOrdered(tail, key, p - 1, rate);
      InsertBehindHead(entries, key, p, rate);
      OrderedCons(entries[0], tail[..p - 1] + [(key, rate)] + tail[p - 1..]);
    }
  }

  /** Inserting behind the first entry keeps that entry first and below the rest. */
  lemma InsertBehindHead<R>(entries: seq<(string, R)>, key: string, p: nat, rate: R)
    requires Ordered(entries) && 0 < p <= |entries| && Less(entries[0].0, key)
    ensures var tail := entries[1..];
            var t' := tail[..p - 1] + [(key, rate)] + tail[p - 1..];
            entries[..p] + [(key, rate)] + entries[p..] == [entries[0]] + t' &&
            forall j :: 0 <= j < |t'| ==> Less(entries[0].0, t'[j].0)
  {
    var tail := entries[1..];
    var t' := tail[..p - 1] + [(key, rate)] + tail[p - 1..];
    forall j | 0 <= j < |t'|
      ensures Less(entries[0].0, t'[j].0)
    {
      if j > p - 1 {
        assert t'[j] == entries[j];
      } else if j < p - 1 {
        assert t'[j] == entries[j + 1];
      }
    }
    assert entries[..p] + [(key, rate)] + entries[p..] == [entries[0]] + t';
  }

  lemma OrderedCons<R>(a: (string, R), t: seq<(string, R)>)
    requires Ordered(t) && forall j :: 0 <= j < |t| ==> Less(a.0, t[j].0)
    ensures Ordered([a] + t)
  {
    var e := [a] + t;
    forall i, j | 0 <= i < j < |e|
      ensures Less(e[i].0, e[j].0)
    {
      assert e[j] == t[j - 1];
      if i > 0 {
        assert e[i] == t[i - 1];
      }
    }
  }

  /** Putting a new key in its place in the order. */
  lemma {:induction false} StoreInsert<R>(entries: seq<(string, R)>, key: string, p: nat, rate: R)
    requires Ordered(entries) && p == FirstNotBelow(entries, key)
    requires p < |entries| ==> entries[p].0 != key
    ensures var e' := entries[..p] + [(key, rate)] + entries[p..];
            Ordered(e') && AsMap(e') == AsMap(entries)[key := rate]
    decreases p
  {
    InsertOrdered(entries, key, p, rate);
    if p == 0 {
      assert entries[..0] + [(key, rate)] + entries[0..] == [(key, rate)] + entries;
      assert ([(key, rate)] + entries)[1..] == entries;
    } else {
      var tail := entries[1..];
      var t' := tail[..p - 1] + [(key, rate)] + tail[p - 1..];
      InsertBehindHead(entries, key, p, rate);
      assert ([entries[0]] + t')[1..] == t';
      assert Ordered(tail);
      StoreInsert(tail, key, p - 1, rate);
      LessIrreflexive(key);
      UpdatesCommute(AsMap(tail), key, rate, entries[0].0, entries[0].1);
    }
  }
}
