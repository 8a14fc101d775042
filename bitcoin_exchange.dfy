/**
 * The bitcoin exchange: a price database keyed by "YYYY-MM-DD" strings
 * (a std::map<std::string, float>, kept in the string order of its keys),
 * date validation, and the per-line conversion of an input file, which uses
 * the rate of the closest database date not after the query date.
 *
 * Float values stay abstract: they are reals, and the number that atof reads
 * from a text is supplied by the caller as the function `atof`. Files are
 * sequences of lines without their header line.
 */
module BitcoinExchange {
  import opened Characters
  import opened Wrappers

  // ---------------------------------------------------------------------
  // The order of std::string keys
  // ---------------------------------------------------------------------

  /** std::string's operator<: lexicographic by character code, and a
      proper prefix comes before the longer string. */
  predicate Lt(a: string, b: string): (lt: bool)
    ensures lt ==> a != b
    ensures |a| < |b| && a == b[..|a|] ==> lt
    decreases |a|
  {
    assert 0 < |a| < |b| && a == b[..|a|] ==> a[1..] == b[1..][..|a| - 1];
    |b| > 0 && (|a| == 0 || a[0] < b[0] || (a[0] == b[0] && Lt(a[1..], b[1..])))
  }

  predicate Le(a: string, b: string)
  {
    a == b || Lt(a, b)
  }

  lemma {:induction false} LtAsymmetric(a: string, b: string)
    requires Lt(a, b)
    ensures !Lt(b, a)
    decreases |a|
  {
    if |a| > 0 && a[0] == b[0] {
      LtAsymmetric(a[1..], b[1..]);
    }
  }

  lemma {:induction false} LtTransitive(a: string, b: string, c: string)
    requires Lt(a, b) && Lt(b, c)
    ensures Lt(a, c)
    decreases |a|
  {
    if |a| > 0 && a[0] == b[0] && b[0] == c[0] {
      LtTransitive(a[1..], b[1..], c[1..]);
    }
  }

  /** Any two strings are equal or one comes first. */
  lemma {:induction false} LtTotal(a: string, b: string)
    ensures a == b || Lt(a, b) || Lt(b, a)
    decreases |a|
  {
    if |a| > 0 && |b| > 0 && a[0] == b[0] {
      LtTotal(a[1..], b[1..]);
      assert a == [a[0]] + a[1..] && b == [b[0]] + b[1..];
    }
  }

  lemma LeAntisymmetric()
    ensures forall a, b :: Le(a, b) && Le(b, a) ==> a == b
  {
    forall a, b | Le(a, b) && Le(b, a)
      ensures a == b
    {
      if a != b {
        LtAsymmetric(a, b);
      }
    }
  }

  /** Every non-empty set of keys has a greatest key. */
  lemma HasGreatest(s: set<string>)
    requires s != {}
    ensures exists m :: m in s && forall k :: k in s ==> Le(k, m)
  {
    var m := Greatest(s);
  }

  lemma {:induction false} Greatest(s: set<string>) returns (m: string)
    requires s != {}
    ensures m in s && forall k :: k in s ==> Le(k, m)
    decreases s
  {
    var x :| x in s;
    if s == {x} {
      m := x;
    } else {
      var g := Greatest(s - {x});
      m := GreaterOf(s - {x}, g, x);
      assert s == (s - {x}) + {x};
    }
  }

  /** Adding x to a set whose greatest key is g. */
  lemma GreaterOf(r: set<string>, g: string, x: string) returns (m: string)
    requires g in r && forall k :: k in r ==> Le(k, g)
    ensures m in r + {x} && forall k :: k in r + {x} ==> Le(k, m)
  {
    LtTotal(x, g);
    if Lt(g, x) {
      m := x;
      forall k | k in r
        ensures Le(k, x)
      {
        if k != g {
          LtTransitive(k, g, x);
        }
      }
    } else {
      m := g;
    }
  }

  // ---------------------------------------------------------------------
  // The closest earlier date
  // ---------------------------------------------------------------------

  /** _data.upper_bound(date) stepped back once: the greatest key that is
      not after date, or None ("date too early") when every key is after
      date. */
  function FloorKey(keys: set<string>, date: string): (r: Option<string>)
    ensures r.Some? ==> r.value in keys && Le(r.value, date)
    ensures r.Some? ==> forall k :: k in keys && Le(k, date) ==> Le(k, r.value)
    ensures r.None? ==> forall k :: k in keys ==> !Le(k, date)
  {
    var notAfter := set k | k in keys && Le(k, date);
    if notAfter == {} then
      assert forall k :: k in keys && Le(k, date) ==> k in notAfter;
      None
    else
      HasGreatest(notAfter);
      LeAntisymmetric();
      var m :| m in notAfter && forall k :: k in notAfter ==> Le(k, m);
      Some(m)
  }

  /** The lookup fails exactly when every key comes after the date. */
  lemma FloorKeyNoneIffTooEarly(keys: set<string>, date: string)
    ensures FloorKey(keys, date).None? <==> forall k :: k in keys ==> Lt(date, k)
  {
    if FloorKey(keys, date).None? {
      forall k | k in keys
        ensures Lt(date, k)
      {
        LtTotal(k, date);
      }
    } else {
      var m := FloorKey(keys, date).value;
      if m != date {
        LtAsymmetric(m, date);
      }
    }
  }

  /** A date present in the database is its own closest earlier date. */
  lemma FloorKeyOfPresentDate(keys: set<string>, date: string)
    requires date in keys
    ensures FloorKey(keys, date) == Some(date)
  {
    LeAntisymmetric();
  }

  // ---------------------------------------------------------------------
  // isValidDate
  // ---------------------------------------------------------------------

  /** The characters of s after its leading whitespace. */
  function SkipSpace(s: string): (r: string)
    ensures |r| <= |s|
    ensures r == [] || !IsSpace(r[0])
  {
    if s != [] && IsSpace(s[0]) then SkipSpace(s[1..]) else s
  }

  /** What SkipSpace drops is whitespace, and what it keeps is the rest of
      s. */
  lemma {:induction false} SkipSpaceIsSuffix(s: string)
    ensures SkipSpace(s) == s[|s| - |SkipSpace(s)|..]
    ensures forall k :: 0 <= k < |s| - |SkipSpace(s)| ==> IsSpace(s[k])
    decreases |s|
  {
    if s != [] && IsSpace(s[0]) {
      SkipSpaceIsSuffix(s[1..]);
      assert s[1..][|s| - 1 - |SkipSpace(s)|..] == s[|s| - |SkipSpace(s)|..];
      forall k | 1 <= k < |s| - |SkipSpace(s)|
        ensures IsSpace(s[k])
      {
        assert s[k] == s[1..][k - 1];
      }
    }
  }

  /** The longest prefix of s made of decimal digits. */
  function DigitPrefix(s: string): (r: string)
    ensures |r| <= |s| && AllDigits(r)
  {
    if s != [] && IsDigit(s[0]) then [s[0]] + DigitPrefix(s[1..]) else []
  }

  /** DigitPrefix is a prefix of s, and the character after it is not a
      digit. */
  lemma {:induction false} DigitPrefixIsLongest(s: string)
    ensures DigitPrefix(s) == s[..|DigitPrefix(s)|]
    ensures |DigitPrefix(s)| < |s| ==> !IsDigit(s[|DigitPrefix(s)|])
    decreases |s|
  {
    if s != [] && IsDigit(s[0]) {
      DigitPrefixIsLongest(s[1..]);
      assert s[..|DigitPrefix(s)|] == [s[0]] + s[1..][..|DigitPrefix(s[1..])|];
      if |DigitPrefix(s)| < |s| {
        assert s[|DigitPrefix(s)|] == s[1..][|DigitPrefix(s[1..])|];
      }
    }
  }

  /** operator>> into an int: it skips leading whitespace, takes an
      optional sign and then every digit that follows, and fails when no
      digit follows. A value read from a field of w characters is below
      10^w in magnitude, so the fields of a date (at most four characters)
      always fit an int. */
  function Extract(s: string): (r: Option<int>)
    ensures r.Some? ==> -(Pow10(|s|) as int) < r.value < Pow10(|s|)
  {
    var t := SkipSpace(s);
    var digits := DigitPrefix(Unsigned(t));
    if digits == [] then None
    else
      DecimalValueBelow(digits);
      Pow10Monotone(|digits|, |s|);
      if |t| > 0 && t[0] == '-' then Some(-(DecimalValue(digits) as int))
      else Some(DecimalValue(digits))
  }

  /** A string of w digits has a value below 10^w. */
  lemma {:induction false} DecimalValueBelow(d: string)
    requires AllDigits(d)
    ensures DecimalValue(d) < Pow10(|d|)
    decreases |d|
  {
    if d != [] {
      DecimalValueBelow(d[..|d| - 1]);
    }
  }

  lemma {:induction false} Pow10Monotone(v: nat, w: nat)
    requires v <= w
    ensures Pow10(v) <= Pow10(w)
    decreases w
  {
    if v < w {
      Pow10Monotone(v, w - 1);
    }
  }

  /** t without its leading sign, if it has one. */
  function Unsigned(t: string): string
  {
    if |t| > 0 && (t[0] == '+' || t[0] == '-') then t[1..] else t
  }

  lemma {:induction false} DigitPrefixOf(s: string, rest: string)
    requires AllDigits(s)
    requires rest == [] || !IsDigit(rest[0])
    ensures DigitPrefix(s + rest) == s
    decreases |s|
  {
    if s == [] {
      assert s + rest == rest;
    } else {
      assert (s + rest)[1..] == s[1..] + rest;
      DigitPrefixOf(s[1..], rest);
      assert s == [s[0]] + s[1..];
    }
  }

  /** A field that starts with digits reads as their value, whatever
      follows them ("1a" reads as 1). */
  lemma ExtractReadsLeadingDigits(s: string, rest: string)
    requires |s| > 0 && AllDigits(s)
    requires rest == [] || !IsDigit(rest[0])
    ensures Extract(s + rest) == Some(DecimalValue(s))
  {
    assert (s + rest)[0] == s[0];
    ExtractOfDigitStart(s + rest);
    DigitPrefixOf(s, rest);
  }

  /** A field that starts with a digit reads as its digit prefix. */
  lemma ExtractOfDigitStart(u: string)
    requires u != [] && IsDigit(u[0])
    ensures Extract(u) == Some(DecimalValue(DigitPrefix(u)))
  {
    assert SkipSpace(u) == u;
    assert Unsigned(u) == u;
  }

  /** A field without any digit fails to read. */
  lemma ExtractNeedsDigit(s: string)
    requires forall k :: 0 <= k < |s| ==> !IsDigit(s[k])
    ensures Extract(s) == None
  {
    SkipSpaceIsSuffix(s);
    var t := SkipSpace(s);
    if |t| > 1 {
      assert t[1] == s[|s| - |t| + 1];
    }
    if |t| > 0 {
      assert t[0] == s[|s| - |t|];
    }
  }

  /** A field whose first character is neither whitespace, a digit nor a
      sign, or whose sign is not followed by a digit, fails to read: the
      stream finds no number at its start ("a1", "-a", "+"). */
  lemma ExtractNeedsLeadingDigit(s: string)
    requires s != [] && !IsSpace(s[0]) && !IsDigit(s[0])
    requires s[0] == '+' || s[0] == '-' ==> |s| == 1 || !IsDigit(s[1])
    ensures Extract(s) == None
  {
    assert SkipSpace(s) == s;
  }

  /** How stream extraction treats a few fields. */
  lemma ExtractExamples()
    ensures Extract("1a") == Some(1)
    ensures Extract(" 7") == Some(7)
    ensures Extract("-3") == Some(-3)
    ensures Extract("a1") == None
    ensures Extract("--") == None
  {
    ExtractStopsAtLetter();
    ExtractSkipsSpace();
    ExtractReadsSign();
    ExtractNeedsDigit("a1"[..1]);
    ExtractNeedsDigit("--");
  }

  lemma ExtractStopsAtLetter()
    ensures Extract("1a") == Some(1)
  {
    ExtractReadsLeadingDigits("1", "a");
    assert "1" + "a" == "1a";
  }

  lemma ExtractSkipsSpace()
    ensures Extract(" 7") == Some(7)
  {
    assert SkipSpace(" 7") == "7";
    ExtractReadsLeadingDigits("7", []);
    assert "7" + [] == "7";
  }

  lemma ExtractReadsSign()
    ensures Extract("-3") == Some(-3)
  {
    assert Unsigned("-3") == "3";
    assert DigitPrefix("3") == "3";
  }

  datatype Date = Date(year: int, month: int, day: int)

  /** The three numeric fields of a 10-character date, or None when one of
      them fails to read. */
  function ReadFields(date: string): Option<Date>
    requires |date| == 10
  {
    var y, m, d := Extract(date[0..4]), Extract(date[5..7]), Extract(date[8..10]);
    if y.None? || m.None? || d.None? then None
    else Some(Date(y.value, m.value, d.value))
  }

  /** The Gregorian leap-year rule. C++'s % truncates where Dafny's is
      Euclidean, but the two agree on whether the remainder is zero. */
  predicate IsLeapYear(y: int)
  {
    y % 4 == 0 && (y % 100 != 0 || y % 400 == 0)
  }

  /** The range checks isValidDate applies to the fields, in its order. */
  predicate PassesChecks(dt: Date)
  {
    1 <= dt.month <= 12 && 1 <= dt.day <= 31 &&
    (dt.month == 2 ==> dt.day <= (if IsLeapYear(dt.year) then 29 else 28)) &&
    !((dt.month == 4 || dt.month == 6 || dt.month == 9 || dt.month == 11) && dt.day > 30)
  }

  /** isValidDate: every date it accepts has three readable fields that
      name a day of the calendar. */
  predicate IsValidDate(date: string): (ok: bool)
    ensures ok ==> |date| == 10 && ReadFields(date).Some? && IsCalendarDate(ReadFields(date).value)
  {
    if |date| != 10 || date[4] != '-' || date[7] != '-' then false
    else match ReadFields(date)
      case None => false
      case Some(dt) => PassesChecksIffCalendarDate(dt); PassesChecks(dt)
  }

  /** The length of each month of the Gregorian calendar. */
  function DaysInMonth(year: int, month: int): (n: int)
    requires 1 <= month <= 12
    ensures 28 <= n <= 31
  {
    [31, 28, 31, 30, 31, 30, 31, 31, 30, 31, 30, 31][month - 1]
      + (if month == 2 && IsLeapYear(year) then 1 else 0)
  }

  predicate IsCalendarDate(dt: Date)
  {
    1 <= dt.month <= 12 && 1 <= dt.day <= DaysInMonth(dt.year, dt.month)
  }

  /** The checks of isValidDate accept exactly the days of the calendar. */
  lemma PassesChecksIffCalendarDate(dt: Date)
    ensures PassesChecks(dt) <==> IsCalendarDate(dt)
  {
    if 1 <= dt.month <= 12 {
      var table := [31, 28, 31, 30, 31, 30, 31, 31, 30, 31, 30, 31];
      assert table[dt.month - 1] == if dt.month == 2 then 28
        else if dt.month == 4 || dt.month == 6 || dt.month == 9 || dt.month == 11 then 30
        else 31;
    }
  }

  /** isValidDate accepts a string exactly when it has dashes at positions
      4 and 7, length 10, three readable fields, and they name a day of the
      calendar. */
  lemma IsValidDateIffCalendarDate(date: string)
    ensures IsValidDate(date) <==>
      |date| == 10 && date[4] == '-' && date[7] == '-' &&
      ReadFields(date).Some? && IsCalendarDate(ReadFields(date).value)
  {
    if |date| == 10 && ReadFields(date).Some? {
      PassesChecksIffCalendarDate(ReadFields(date).value);
    }
  }

  // ---------------------------------------------------------------------
  // Canonical date strings
  // ---------------------------------------------------------------------

  function Pow10(w: nat): nat
  {
    if w == 0 then 1 else 10 * Pow10(w - 1)
  }

  /** n written with exactly w decimal digits, zero-padded. */
  function Digits(n: nat, w: nat): (s: string)
    ensures |s| == w && AllDigits(s)
  {
    if w == 0 then [] else Digits(n / 10, w - 1) + [('0' as int + n % 10) as char]
  }

  lemma {:induction false} DigitsValue(n: nat, w: nat)
    requires n < Pow10(w)
    ensures DecimalValue(Digits(n, w)) == n
    decreases w
  {
    if w > 0 {
      DigitsValue(n / 10, w - 1);
      var s := Digits(n, w);
      assert s[..|s| - 1] == Digits(n / 10, w - 1);
    }
  }

  /** The "YYYY-MM-DD" spelling of a date whose fields fit their widths. */
  function FormatDate(dt: Date): (s: string)
    requires 0 <= dt.year < 10000 && 0 <= dt.month < 100 && 0 <= dt.day < 100
    ensures |s| == 10 && s[4] == '-' && s[7] == '-'
  {
    Digits(dt.year, 4) + "-" + Digits(dt.month, 2) + "-" + Digits(dt.day, 2)
  }

  lemma ExtractDigits(n: nat, w: nat)
    requires 0 < w && n < Pow10(w)
    ensures Extract(Digits(n, w)) == Some(n)
  {
    ExtractReadsLeadingDigits(Digits(n, w), []);
    assert Digits(n, w) + [] == Digits(n, w);
    DigitsValue(n, w);
  }

  /** A formatted date reads back as itself, and isValidDate accepts it
      exactly when it is a day of the calendar. */
  lemma FormatDateRoundTrip(dt: Date)
    requires 0 <= dt.year < 10000 && 0 <= dt.month < 100 && 0 <= dt.day < 100
    ensures ReadFields(FormatDate(dt)) == Some(dt)
    ensures IsValidDate(FormatDate(dt)) <==> IsCalendarDate(dt)
  {
    var s := FormatDate(dt);
    assert s[0..4] == Digits(dt.year, 4);
    assert s[5..7] == Digits(dt.month, 2);
    assert s[8..10] == Digits(dt.day, 2);
    assert Pow10(2) == 100 && Pow10(4) == 10000;
    ExtractDigits(dt.year, 4);
    ExtractDigits(dt.month, 2);
    ExtractDigits(dt.day, 2);
    IsValidDateIffCalendarDate(s);
  }

  /** February 29 is accepted exactly in leap years. */
  lemma LeapDay(year: int)
    requires 0 <= year < 10000
    ensures IsValidDate(FormatDate(Date(year, 2, 29))) <==> IsLeapYear(year)
  {
    FormatDateRoundTrip(Date(year, 2, 29));
  }

  /** The 31st of April, June, September and November is rejected. */
  lemma ThirtyDayMonths(year: int, month: int)
    requires 0 <= year < 10000
    requires month == 4 || month == 6 || month == 9 || month == 11
    ensures !IsValidDate(FormatDate(Date(year, month, 31)))
  {
    FormatDateRoundTrip(Date(year, month, 31));
  }

  // ---------------------------------------------------------------------
  // One input line
  // ---------------------------------------------------------------------

  /** std::string::find: the first position of c in s, or None (npos). */
  function Find(s: string, c: char): (r: Option<nat>)
    ensures r.None? <==> c !in s
    ensures r.Some? ==> r.value < |s| && s[r.value] == c && c !in s[..r.value]
  {
    if s == [] then None
    else if s[0] == c then Some(0)
    else match Find(s[1..], c)
      case None => None
      case Some(k) => assert s[..k + 1] == [s[0]] + s[1..][..k]; Some(k + 1)
  }

  /** s with every ' ' erased (the remove/erase idiom). */
  function RemoveSpaces(s: string): (r: string)
    ensures ' ' !in r && |r| <= |s|
  {
    if s == [] then []
    else (if s[0] == ' ' then [] else [s[0]]) + RemoveSpaces(s[1..])
  }

  lemma {:induction false} RemoveSpacesAppend(a: string, b: string)
    ensures RemoveSpaces(a + b) == RemoveSpaces(a) + RemoveSpaces(b)
    decreases |a|
  {
    if a == [] {
      assert a + b == b;
    } else {
      var head := if a[0] == ' ' then [] else [a[0]];
      assert RemoveSpaces(a + b) == head + RemoveSpaces(a[1..] + b) by {
        assert (a + b)[0] == a[0];
        assert (a + b)[1..] == a[1..] + b;
      }
      RemoveSpacesAppend(a[1..], b);
      assert RemoveSpaces(a) == head + RemoveSpaces(a[1..]);
    }
  }

  /** A string without spaces is kept as it is, so erasing is idempotent. */
  lemma {:induction false} RemoveSpacesKeeps(s: string)
    requires ' ' !in s
    ensures RemoveSpaces(s) == s
    decreases |s|
  {
    if s != [] {
      assert ' ' !in s[1..];
      RemoveSpacesKeeps(s[1..]);
    }
  }

  /** The date key of a line whose first '|' is at sep: line.substr(0,
      sep - 1) without spaces. For sep == 0 the size_t length sep - 1 wraps
      around to npos and the whole line is kept. */
  function DateKey(line: string, sep: nat): (key: string)
    requires sep < |line|
    ensures ' ' !in key
    ensures sep > 0 ==> |key| < sep
    ensures sep > 0 && ' ' !in line[..sep - 1] ==> key == line[..sep - 1]
  {
    if sep == 0 then RemoveSpaces(line)
    else
      var before := line[..sep - 1];
      if ' ' in before then RemoveSpaces(before)
      else RemoveSpacesKeeps(before); RemoveSpaces(before)
  }

  /** A line's first '|' follows date and one more character c; that
      character is dropped from the date key even when it is not a space,
      and the value is read from everything after the '|'. */
  lemma DateKeyDropsCharacterBeforeBar(data: map<string, real>, date: string, c: char, rest: string, atof: string -> real)
    requires '|' !in date && c != '|'
    ensures Find(date + [c] + "|" + rest, '|') == Some(|date| + 1)
    ensures Classify(data, date + [c] + "|" + rest, atof) == Judge(data, RemoveSpaces(date), atof(rest))
  {
    var line := date + [c] + "|" + rest;
    assert line[..|date| + 1] == date + [c];
    FindAt(line, '|', |date| + 1);
    assert DateKey(line, |date| + 1) == RemoveSpaces(date) by {
      assert line[..|date|] == date;
    }
    assert line[|date| + 2..] == rest;
  }

  /** Find returns k when s[k] is the first occurrence of c. */
  lemma {:induction false} FindAt(s: string, c: char, k: nat)
    requires k < |s| && s[k] == c && c !in s[..k]
    ensures Find(s, c) == Some(k)
    decreases k
  {
    if k > 0 {
      assert s[0] == s[..k][0];
      assert s[1..][..k - 1] == s[..k][1..];
      FindAt(s[1..], c, k - 1);
    }
  }

  /** What processInput writes for one line. */
  datatype Message =
    | BadInput(text: string)                           // "Error: bad input => " text
    | NotPositive                                      // "Error: not a positive number."
    | TooLarge                                         // "Error: too large a number."
    | TooEarly                                         // "Error: date too early."
    | Converted(date: string, value: real, rate: real) // date " => " value " = " value * rate

  /** One iteration of processInput's loop over the database data: a line
      without '|' is echoed as bad input, and a conversion is always of a
      valid date, a value in 0 .. 1000 and a rate from the database. */
  function Classify(data: map<string, real>, line: string, atof: string -> real): (m: Message)
    ensures '|' !in line ==> m == BadInput(line)
    ensures m.Converted? ==> '|' in line && IsValidDate(m.date) && 0.0 <= m.value <= 1000.0 && m.rate in data.Values
  {
    match Find(line, '|')
    case None => BadInput(line)
    case Some(sep) => Judge(data, DateKey(line, sep), atof(line[sep + 1..]))
  }

  /** The checks applied to a line's date key and value, in their order,
      and the lookup of the rate: a conversion keeps the date and the value
      and takes its rate from the database; "too early" means no database
      date is at or before the date. */
  function Judge(data: map<string, real>, date: string, value: real): (m: Message)
    ensures m.Converted? ==> m.date == date && m.value == value && IsValidDate(date) && 0.0 <= value <= 1000.0 && m.rate in data.Values
    ensures m == TooEarly ==> forall k :: k in data ==> !Le(k, date)
  {
    if !IsValidDate(date) then BadInput(date)
    else if value < 0.0 then NotPositive
    else if value > 1000.0 then TooLarge
    else match FloorKey(data.Keys, date)
      case None => TooEarly
      case Some(k) => Converted(date, value, data[k])
  }

  /** What each message means: a conversion is of a valid date with a value
      in 0 .. 1000 (both included) at the rate of the closest database date
      not after it; "too early" means every database date is later. */
  lemma JudgeMeaning(data: map<string, real>, date: string, value: real)
    ensures Judge(data, date, value).BadInput? <==> !IsValidDate(date)
    ensures Judge(data, date, value) == NotPositive <==> IsValidDate(date) && value < 0.0
    ensures Judge(data, date, value) == TooLarge <==> IsValidDate(date) && value > 1000.0
    ensures Judge(data, date, value) == TooEarly <==>
      IsValidDate(date) && 0.0 <= value <= 1000.0 && forall k :: k in data ==> Lt(date, k)
    ensures Judge(data, date, value).Converted? ==>
      var msg := Judge(data, date, value);
      IsValidDate(date) && msg.date == date && msg.value == value && 0.0 <= value <= 1000.0 &&
      exists k :: k in data && Le(k, date) && msg.rate == data[k] &&
        forall k' :: k' in data && Le(k', date) ==> Le(k', k)
  {
    FloorKeyNoneIffTooEarly(data.Keys, date);
  }

  /** The bounds are inclusive: a value of 0 or of 1000 on a valid date
      that is in the database is converted at that date's own rate. */
  lemma BoundsAreInclusive(data: map<string, real>, date: string)
    requires IsValidDate(date) && date in data
    ensures Judge(data, date, 0.0) == Converted(date, 0.0, data[date])
    ensures Judge(data, date, 1000.0) == Converted(date, 1000.0, data[date])
  {
    FloorKeyOfPresentDate(data.Keys, date);
  }

  /** A line "date |text" whose date has no spaces is judged on that date
      and on the number read from text. */
  lemma WellFormedLine(data: map<string, real>, date: string, text: string, atof: string -> real)
    requires ' ' !in date && '|' !in date
    ensures Classify(data, date + " |" + text, atof) == Judge(data, date, atof(text))
  {
    LineParts(date, text);
    RemoveSpacesKeeps(date);
  }

  /** Where the parts of "date |value" are. */
  lemma LineParts(date: string, value: string)
    requires '|' !in date
    ensures Find(date + " |" + value, '|') == Some(|date| + 1)
    ensures DateKey(date + " |" + value, |date| + 1) == RemoveSpaces(date)
    ensures (date + " |" + value)[|date| + 2..] == value
  {
    var line := date + " |" + value;
    assert line[..|date| + 1] == date + " ";
    assert line[|date| + 1] == '|';
    assert line[..|date|] == date;
  }

  // ---------------------------------------------------------------------
  // The exchange object
  // ---------------------------------------------------------------------

  /** The key and rate a database line contributes: the text before its
      first comma and the number after it, or nothing without a comma. */
  function Entry(line: string, atof: string -> real): (e: Option<(string, real)>)
    ensures e.Some? <==> ',' in line
    ensures e.Some? ==> ',' !in e.value.0 && |e.value.0| < |line| && line[..|e.value.0|] == e.value.0 && line[|e.value.0|] == ','
    ensures e.Some? ==> e.value.1 == atof(line[|e.value.0| + 1..])
  {
    match Find(line, ',')
    case None => None
    case Some(comma) => Some((line[..comma], atof(line[comma + 1..])))
  }

  /** The map after loading lines in order: each entry sets its key, so no
      date is ever removed. */
  function Loaded(data: map<string, real>, lines: seq<string>, atof: string -> real): (r: map<string, real>)
    ensures data.Keys <= r.Keys
  {
    if lines == [] then data
    else
      var before := Loaded(data, lines[..|lines| - 1], atof);
      match Entry(lines[|lines| - 1], atof)
      case None => before
      case Some((key, rate)) => before[key := rate]
  }

  /** A key some line names holds the rate of the last line that names it. */
  lemma {:induction false} LoadedLastWins(data: map<string, real>, lines: seq<string>, atof: string -> real, i: nat)
    requires i < |lines| && Entry(lines[i], atof).Some?
    requires forall j :: i < j < |lines| ==> Entry(lines[j], atof).None? || Entry(lines[j], atof).value.0 != Entry(lines[i], atof).value.0
    ensures Entry(lines[i], atof).value.0 in Loaded(data, lines, atof)
    ensures Loaded(data, lines, atof)[Entry(lines[i], atof).value.0] == Entry(lines[i], atof).value.1
    decreases |lines|
  {
    if i < |lines| - 1 {
      var init := lines[..|lines| - 1];
      assert init[i] == lines[i];
      forall j | i < j < |init|
        ensures Entry(init[j], atof).None? || Entry(init[j], atof).value.0 != Entry(init[i], atof).value.0
      {
        assert init[j] == lines[j];
      }
      LoadedLastWins(data, init, atof, i);
      assert Entry(lines[|lines| - 1], atof).None? || Entry(lines[|lines| - 1], atof).value.0 != Entry(lines[i], atof).value.0;
    }
  }

  /** A key no line names keeps what it had: lines without a comma, and
      lines for other dates, leave it alone. */
  lemma {:induction false} LoadedUntouched(data: map<string, real>, lines: seq<string>, atof: string -> real, key: string)
    requires forall j :: 0 <= j < |lines| ==> Entry(lines[j], atof).None? || Entry(lines[j], atof).value.0 != key
    ensures key in Loaded(data, lines, atof) <==> key in data
    ensures key in data ==> Loaded(data, lines, atof)[key] == data[key]
    decreases |lines|
  {
    if lines != [] {
      var init := lines[..|lines| - 1];
      forall j | 0 <= j < |init|
        ensures Entry(init[j], atof).None? || Entry(init[j], atof).value.0 != key
      {
        assert init[j] == lines[j];
      }
      LoadedUntouched(data, init, atof, key);
      assert Entry(lines[|lines| - 1], atof).None? || Entry(lines[|lines| - 1], atof).value.0 != key;
    }
  }

  /** BitcoinExchange: the _data map from dates to rates. */
  class Exchange {
    var data: map<string, real>

    constructor ()
      ensures data == map[]
    {
      data := map[];
    }

    /** loadDatabase over the lines after the header: each line with a comma
        sets the rate of the date before the comma. */
    method LoadDatabase(lines: seq<string>, atof: string -> real)
      modifies this
      ensures data == Loaded(old(data), lines, atof)
    {
      var i := 0;
      while i < |lines|
        invariant 0 <= i <= |lines|
        invariant data == Loaded(old(data), lines[..i], atof)
      {
        var line := lines[i];
        var comma := Find(line, ',');
        if comma.Some? {
          data := data[line[..comma.value] := atof(line[comma.value + 1..])];
        }
        assert lines[..i + 1][..i] == lines[..i];
        i := i + 1;
      }
      assert lines[..|lines|] == lines;
    }

    /** processInput over the lines after the header: one message per line,
        in order; the database is not changed. */
    method ProcessInput(lines: seq<string>, atof: string -> real) returns (messages: seq<Message>)
      ensures |messages| == |lines|
      ensures forall i :: 0 <= i < |lines| ==> messages[i] == Classify(data, lines[i], atof)
    {
      messages := [];
      var i := 0;
      while i < |lines|
        invariant 0 <= i <= |lines| && |messages| == i
        invariant forall j :: 0 <= j < i ==> messages[j] == Classify(data, lines[j], atof)
      {
        var m := Classify(data, lines[i], atof);
        assert forall j :: 0 <= j < i ==> (messages + [m])[j] == messages[j];
        messages := messages + [m];
        i := i + 1;
      }
    }
  }
}
