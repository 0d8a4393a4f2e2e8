/** Durations (common/duration.c): a subset of section 4.4.3.2 of ISO 8601:2004. */
module Duration {
  import opened Prelude

  const MAX_FIELD := 0x7fff_ffff

  datatype Duration = Duration(years: int, months: int, weeks: int, days: int, hours: int, minutes: int, seconds: int)

  const INSTANT := Duration(0, 0, 0, 0, 0, 0, 0)

  // ----- numbers -----

  predicate IsDigit(c: char) { '0' <= c <= '9' }

  predicate Digits(s: string) {
    forall i :: 0 <= i < |s| ==> IsDigit(s[i])
  }

  /** Decimal notation, as `%u` prints it. */
  function Num(n: nat): (s: string)
    ensures s != [] && Digits(s)
  {
    if n < 10 then ['0' + n as char] else Num(n / 10) + ['0' + (n % 10) as char]
  }

  function Value(s: string): int
    requires Digits(s)
  {
    if s == [] then 0 else 10 * Value(s[..|s| - 1]) + (s[|s| - 1] as int - '0' as int)
  }

  lemma {:induction false} ValueOfNum(n: nat)
    ensures Value(Num(n)) == n
  {
    if n >= 10 {
      ValueOfNum(n / 10);
      assert Num(n)[..|Num(n)| - 1] == Num(n / 10);
    }
  }

  /** The number of digits at the front of a string. */
  function Run(s: string): (k: nat)
    ensures k <= |s| && Digits(s[..k])
  {
    if s == [] || !IsDigit(s[0]) then 0
    else
      assert s[..Run(s[1..]) + 1] == [s[0]] + s[1..][..Run(s[1..])];
      Run(s[1..]) + 1
  }

  lemma {:induction false} RunIsMaximal(a: string, rest: string)
    requires Digits(a) && (rest == [] || !IsDigit(rest[0]))
    ensures Run(a + rest) == |a|
  {
    if a == [] {
      assert a + rest == rest;
    } else {
      RunIsMaximal(a[1..], rest);
      assert (a + rest)[1..] == a[1..] + rest;
    }
  }

  /** `atoi`, for numbers that fit an `int`. */
  function Atoi(s: string): int {
    if s != [] && IsSpace(s[0]) then Atoi(s[1..])
    else if s != [] && s[0] == '-' then -Value(s[1..][..Run(s[1..])])
    else
      var t := if s != [] && s[0] == '+' then s[1..] else s;
      Value(t[..Run(t)])
  }

  lemma AtoiNum(n: nat, rest: string)
    requires rest == [] || !IsDigit(rest[0])
    ensures Atoi(Num(n) + rest) == n
  {
    ValueOfNum(n);
    RunIsMaximal(Num(n), rest);
    assert (Num(n) + rest)[..|Num(n)|] == Num(n) && IsDigit((Num(n) + rest)[0]);
  }

  // ----- printing -----

  function Uint32(n: int): nat { n % 0x1_0000_0000 }

  function Part(n: int, c: char): string {
    if n > 0 then Num(Uint32(n)) + [c] else []
  }

  predicate HasDate(d: Duration) { d.years > 0 || d.months > 0 || d.weeks > 0 || d.days > 0 }

  predicate HasSeconds(d: Duration) { d.seconds > 0 || (!HasDate(d) && d.hours == 0 && d.minutes == 0) }

  predicate HasTime(d: Duration) { d.hours > 0 || d.minutes > 0 || HasSeconds(d) }

  function DatePart(d: Duration): string {
    Part(d.years, 'Y') + Part(d.months, 'M') + Part(d.weeks, 'W') + Part(d.days, 'D')
  }

  function SecondPart(d: Duration): string {
    if HasSeconds(d) then Num(Uint32(d.seconds)) + ['S'] else []
  }

  function TimePart(d: Duration): string {
    if HasTime(d) then ['T'] + (Part(d.hours, 'H') + Part(d.minutes, 'M') + SecondPart(d)) else []
  }

  /** The text of a duration. */
  function Print(d: Duration): string { ['P'] + DatePart(d) + TimePart(d) }

  /** `digits_in_number`. */
  method DigitsInNumber(n: int) returns (count: nat)
    ensures count == |Num(Uint32(n))|
  {
    var period: nat := Uint32(n);
    count := 0;
    assert |Num(0)| == 1;
    if period == 0 { return 1; }
    while period > 0
      invariant period > 0 ==> count + |Num(period)| == |Num(Uint32(n))|
      invariant period == 0 ==> count == |Num(Uint32(n))|
    {
      count := count + 1;
      period := period / 10;
    }
  }

  /** What the sizing pass of `duration2string` adds for one field. */
  method SizeOf(n: int, c: char) returns (size: nat)
    ensures size == |Part(n, c)|
  {
    size := 0;
    if n > 0 {
      size := DigitsInNumber(n);
      size := size + 1;
    }
  }

  /** What the second pass of `duration2string` appends for one field. */
  method AppendField(str: string, n: int, c: char) returns (r: string)
    ensures r == str + Part(n, c)
  {
    r := str;
    if n > 0 { r := str + (Num(Uint32(n)) + [c]); }
  }

  /** `duration2string`: the text, and the size of the buffer allocated for it, terminator included. */
  method Duration2String(d: Duration) returns (str: string, size: nat)
    ensures str == Print(d) && size == |str| + 1
  {
    hide Num, Uint32, Part, HasDate;
    var y := SizeOf(d.years, 'Y');
    var mo := SizeOf(d.months, 'M');
    var w := SizeOf(d.weeks, 'W');
    var da := SizeOf(d.days, 'D');
    var h := SizeOf(d.hours, 'H');
    var mi := SizeOf(d.minutes, 'M');
    var s := 0;
    if HasSeconds(d) {
      s := DigitsInNumber(d.seconds);
      s := s + 1;
    }
    size := 2 + y + mo + w + da + h + mi + s;
    if HasTime(d) { size := size + 1; }
    str := AppendField(['P'], d.years, 'Y');
    str := AppendField(str, d.months, 'M');
    str := AppendField(str, d.weeks, 'W');
    str := AppendField(str, d.days, 'D');
    assert str == ['P'] + DatePart(d);
    str := AppendTime(d, str);
    assert size == |str| + 1 by { SizeOfTime(d); }
  }

  lemma SizeOfTime(d: Duration)
    ensures |TimePart(d)| == (if HasTime(d) then 1 else 0) + |Part(d.hours, 'H')| + |Part(d.minutes, 'M')| +
                             (if HasSeconds(d) then |Num(Uint32(d.seconds))| + 1 else 0)
  {
    hide Num, Uint32;
  }

  method AppendTime(d: Duration, start: string) returns (str: string)
    ensures str == start + TimePart(d)
  {
    hide Num, Uint32, HasDate;
    str := start;
    if HasTime(d) { str := str + ['T']; }
    str := AppendField(str, d.hours, 'H');
    str := AppendField(str, d.minutes, 'M');
    if HasSeconds(d) { str := str + (Num(Uint32(d.seconds)) + ['S']); }
  }

  // ----- parsing -----

  /** `strchr`: the first `c` at or after `from`. */
  function IndexFrom(s: string, from: nat, c: char): (r: Option<nat>)
    ensures r.Some? ==> from <= r.value < |s| && s[r.value] == c && forall i :: from <= i < r.value ==> s[i] != c
    ensures r.None? ==> forall i :: from <= i < |s| ==> s[i] != c
    decreases |s| - from
  {
    if from >= |s| then None else if s[from] == c then Some(from) else IndexFrom(s, from + 1, c)
  }

  /** `strrchr`: the last `c` at or after `from`. */
  function LastFrom(s: string, from: nat, c: char): (r: Option<nat>)
    ensures r.Some? ==> from <= r.value < |s| && s[r.value] == c && forall i :: r.value < i < |s| ==> s[i] != c
    ensures r.None? ==> forall i :: from <= i < |s| ==> s[i] != c
    decreases |s|
  {
    if |s| <= from then None
    else if s[|s| - 1] == c then Some(|s| - 1)
    else LastFrom(s[..|s| - 1], from, c)
  }

  /** The cursor of the parser, and whether a field other than weeks was found. */
  datatype Cursor = Cursor(pos: nat, notWeeks: bool)

  /** Reads the number after the cursor and moves the cursor to the letter found, if one was. */
  function Take(s: string, cur: Cursor, found: Option<nat>): (int, Cursor) {
    if found.None? then (0, cur)
    else (Atoi(if cur.pos + 1 <= |s| then s[cur.pos + 1..] else []), Cursor(found.value, true))
  }

  /** A pointer difference converted to `size_t`. */
  function Distance(x: int, y: int): nat { (x - y) % 0x1_0000_0000_0000_0000 }

  /** Years, months and days; an `M` behind the `T` does not count as months. */
  function ParseDate(s: string, p: nat, t: Option<nat>): (int, int, int, Cursor) {
    var (years, c1) := Take(s, Cursor(0, false), IndexFrom(s, 0, 'Y'));
    var x := IndexFrom(s, c1.pos, 'M');
    var early := x.Some? && (t.None? || Distance(x.value, p) < Distance(t.value, p));
    var (months, c2) := Take(s, c1, if early then x else None);
    var (days, c3) := Take(s, c2, IndexFrom(s, c2.pos, 'D'));
    (years, months, days, c3)
  }

  /** Hours, minutes and seconds, behind the `T`; an `M` in front of it does not count as minutes. */
  function ParseTime(s: string, p: nat, t: nat): (int, int, int, Cursor) {
    var c4 := Cursor(t, true);
    var (hours, c5) := Take(s, c4, IndexFrom(s, c4.pos, 'H'));
    var x := LastFrom(s, c5.pos, 'M');
    var (minutes, c6) := Take(s, c5, if x.Some? && Distance(x.value, p) > Distance(t, p) then x else None);
    var (seconds, c7) := Take(s, c6, IndexFrom(s, c6.pos, 'S'));
    (hours, minutes, seconds, c7)
  }

  /** `duration_create_from_string`. */
  function Parse(s: string): Option<Duration> {
    var p := IndexFrom(s, 0, 'P');
    if p.None? then None else
    var t := IndexFrom(s, 0, 'T');
    var (years, months, days, c3) := ParseDate(s, p.value, t);
    var (hours, minutes, seconds, c7) := if t.Some? then ParseTime(s, p.value, t.value) else (0, 0, 0, c3);
    var w := IndexFrom(s, c7.pos, 'W');
    if w.None? then Some(Duration(years, months, 0, days, hours, minutes, seconds))
    else if c7.notWeeks then None
    else Some(Duration(years, months, Take(s, c7, w).0, days, hours, minutes, seconds))
  }

  // ----- parsing undoes printing -----

  predicate Field(n: int) { 0 <= n <= MAX_FIELD }

  predicate FieldsFit(d: Duration) {
    && Field(d.years) && Field(d.months) && Field(d.weeks) && Field(d.days)
    && Field(d.hours) && Field(d.minutes) && Field(d.seconds)
  }

  /** Nothing stands beside a number of weeks. */
  predicate WeeksAlone(d: Duration) { d.weeks != 0 ==> d == INSTANT.(weeks := d.weeks) }

  /** Fields that fit 31 bits; weeks stand alone. */
  predicate Printable(d: Duration) { FieldsFit(d) && WeeksAlone(d) }

  /** What follows the cursor. */
  ghost predicate Ahead(s: string, cur: Cursor, rest: string) {
    cur.pos < |s| && s[cur.pos + 1..] == rest
  }

  /** A field that is printed next is read back, and the cursor moves behind it. */
  lemma TakesField(s: string, cur: Cursor, n: nat, c: char, rest: string)
    requires Ahead(s, cur, Num(n) + [c] + rest) && s[cur.pos] != c && !IsDigit(c)
    ensures IndexFrom(s, cur.pos, c) == Some(cur.pos + 1 + |Num(n)|)
    ensures Take(s, cur, IndexFrom(s, cur.pos, c)) == (n, Cursor(cur.pos + 1 + |Num(n)|, true))
    ensures Ahead(s, Cursor(cur.pos + 1 + |Num(n)|, true), rest)
  {
    hide Num, Atoi;
    var k, tail := cur.pos + 1, Num(n) + [c] + rest;
    assert forall i :: 0 <= i < |tail| ==> s[k + i] == tail[i];
    assert s[k + |Num(n)|] == tail[|Num(n)|] == c;
    forall i | cur.pos <= i < k + |Num(n)| ensures s[i] != c {
      if i >= k { assert s[i] == tail[i - k] == Num(n)[i - k]; }
    }
    assert tail == Num(n) + ([c] + rest);
    AtoiNum(n, [c] + rest);
    assert tail[|Num(n)| + 1..] == rest && s[k..][|Num(n)| + 1..] == s[k + |Num(n)| + 1..];
  }

  /** A letter that does not follow is not found. */
  lemma NotAhead(s: string, cur: Cursor, rest: string, c: char)
    requires Ahead(s, cur, rest) && s[cur.pos] != c && c !in rest
    ensures IndexFrom(s, cur.pos, c) == None && LastFrom(s, cur.pos, c) == None
  {
    forall i | cur.pos <= i < |s| ensures s[i] != c {
      if i > cur.pos { assert s[i] == rest[i - cur.pos - 1]; }
    }
  }

  /** An optional field is read back: the number if it is printed, otherwise zero. */
  lemma TakesPart(s: string, cur: Cursor, n: int, c: char, rest: string)
    requires Ahead(s, cur, Part(n, c) + rest) && s[cur.pos] != c && !IsDigit(c) && Field(n) && (n == 0 ==> c !in rest)
    ensures var (v, cur') := Take(s, cur, IndexFrom(s, cur.pos, c));
            && v == n && Ahead(s, cur', rest) && cur'.pos >= cur.pos
            && s[cur'.pos] == (if n > 0 then c else s[cur.pos]) && cur'.notWeeks == (cur.notWeeks || n > 0)
    ensures n > 0 ==> IndexFrom(s, cur.pos, c) == Some(Take(s, cur, IndexFrom(s, cur.pos, c)).1.pos)
  {
    hide Num, Take, Atoi;
    if n > 0 {
      TakesField(s, cur, n, c, rest);
    } else {
      assert Part(n, c) + rest == rest;
      NotAhead(s, cur, rest, c);
      TakesNothing(s, cur);
    }
  }

  lemma TakesNothing(s: string, cur: Cursor)
    ensures Take(s, cur, None) == (0, cur)
  {
  }

  /** Fields are made of digits and their own letter. */
  lemma PartLetters(n: int, c: char, x: char)
    requires !IsDigit(x) && x != c
    ensures x !in Part(n, c)
  {
    assert n > 0 ==> Digits(Num(Uint32(n)));
  }

  lemma TimeLetters(d: Duration, x: char)
    requires x == 'P' || x == 'Y' || x == 'D' || x == 'W'
    ensures x !in TimePart(d)
  {
    PartLetters(d.hours, 'H', x);
    PartLetters(d.minutes, 'M', x);
    assert Digits(Num(Uint32(d.seconds)));
  }

  lemma {:induction false} NumIsShort(n: nat)
    ensures |Num(n)| <= n + 1
  {
    if n >= 10 { NumIsShort(n / 10); }
  }

  lemma PartIsShort(n: int, c: char)
    requires Field(n)
    ensures |Part(n, c)| <= MAX_FIELD + 2
  {
    NumIsShort(n);
  }

  lemma PrintIsShort(d: Duration)
    requires Printable(d)
    ensures |Print(d)| < 0x1_0000_0000_0000_0000
  {
    DatePartIsShort(d);
    TimePartIsShort(d);
    hide DatePart, TimePart;
  }

  lemma DatePartIsShort(d: Duration)
    requires Printable(d)
    ensures |DatePart(d)| <= 4 * MAX_FIELD + 8
  {
    hide Part;
    PartIsShort(d.years, 'Y');
    PartIsShort(d.months, 'M');
    PartIsShort(d.weeks, 'W');
    PartIsShort(d.days, 'D');
  }

  lemma TimePartIsShort(d: Duration)
    requires Printable(d)
    ensures |TimePart(d)| <= 3 * MAX_FIELD + 8
  {
    hide Part;
    PartIsShort(d.hours, 'H');
    PartIsShort(d.minutes, 'M');
    NumIsShort(d.seconds);
  }

  /** Where the `T` is, if the text has one. */
  lemma FindsT(d: Duration)
    requires Printable(d)
    ensures IndexFrom(Print(d), 0, 'P') == Some(0)
    ensures IndexFrom(Print(d), 0, 'T') == if HasTime(d) then Some(1 + |DatePart(d)|) else None
  {
    DateLetters(d, 'T');
    hide DatePart, Part, HasTime;
    FirstMark(DatePart(d), TimePart(d));
    assert ['P'] + DatePart(d) + TimePart(d) == Print(d);
  }

  lemma DateLetters(d: Duration, x: char)
    requires x == 'T'
    ensures x !in DatePart(d)
  {
    hide Part;
    PartLetters(d.years, 'Y', x);
    PartLetters(d.months, 'M', x);
    PartLetters(d.weeks, 'W', x);
    PartLetters(d.days, 'D', x);
  }

  lemma FirstMark(date: string, time: string)
    requires 'T' !in date && (time == [] || time[0] == 'T')
    ensures var s := ['P'] + date + time;
            && IndexFrom(s, 0, 'P') == Some(0)
            && IndexFrom(s, 0, 'T') == if time != [] then Some(1 + |date|) else None
  {
    var s := ['P'] + date + time;
    assert forall i :: 1 <= i <= |date| ==> s[i] == date[i - 1];
    if time != [] { assert s[1 + |date|] == 'T'; } else { assert |s| == 1 + |date|; }
  }

  /** Months are read back, and the `M` of the minutes is not mistaken for them. */
  lemma TakesMonths(d: Duration, cur: Cursor)
    requires Printable(d) && d.weeks == 0 &&
             Ahead(Print(d), cur, Part(d.months, 'M') + (Part(d.days, 'D') + TimePart(d)))
    requires Print(d)[cur.pos] == 'P' || Print(d)[cur.pos] == 'Y'
    ensures var s := Print(d);
            var x, t := IndexFrom(s, cur.pos, 'M'), IndexFrom(s, 0, 'T');
            var early := x.Some? && (t.None? || Distance(x.value, 0) < Distance(t.value, 0));
            var (v, cur') := Take(s, cur, if early then x else None);
            && v == d.months && Ahead(s, cur', Part(d.days, 'D') + TimePart(d))
            && s[cur'.pos] == (if d.months > 0 then 'M' else s[cur.pos])
            && cur'.notWeeks == (cur.notWeeks || d.months > 0)
  {
    hide Part, Take, TimePart, DatePart, Distance, Print;
    var s, rest := Print(d), Part(d.days, 'D') + TimePart(d);
    if d.months > 0 {
      TakesPart(s, cur, d.months, 'M', rest);
      MonthsBeforeT(d, cur);
    } else {
      TakesNothing(s, cur);
      PartOfZero('M');
      assert Part(d.months, 'M') + rest == rest;
      NoMonthsBeforeT(d, cur);
    }
  }

  /** Where the `T` is, counted from the end. */
  lemma FindsTFromEnd(d: Duration)
    requires Printable(d)
    ensures |Print(d)| < 0x1_0000_0000_0000_0000
    ensures IndexFrom(Print(d), 0, 'T') == if TimePart(d) != [] then Some(|Print(d)| - |TimePart(d)|) else None
  {
    hide Part;
    FindsT(d);
    PrintIsShort(d);
    assert |Print(d)| == 1 + |DatePart(d)| + |TimePart(d)|;
  }

  /** An `M` with the days and the time behind it is in front of the `T`. */
  lemma MonthsBeforeT(d: Duration, cur: Cursor)
    requires Printable(d) && d.months > 0 &&
             Ahead(Print(d), cur, Part(d.months, 'M') + (Part(d.days, 'D') + TimePart(d)))
    requires Print(d)[cur.pos] != 'M'
    ensures var x, t := IndexFrom(Print(d), cur.pos, 'M'), IndexFrom(Print(d), 0, 'T');
            x.Some? && (t.None? || Distance(x.value, 0) < Distance(t.value, 0))
  {
    hide Part, TimePart, DatePart, Take, Print;
    FindsTFromEnd(d);
    TakesPart(Print(d), cur, d.months, 'M', Part(d.days, 'D') + TimePart(d));
  }

  /** Without months, the first `M` is not in front of the `T`. */
  lemma NoMonthsBeforeT(d: Duration, cur: Cursor)
    requires Printable(d) && Ahead(Print(d), cur, Part(d.days, 'D') + TimePart(d)) && Print(d)[cur.pos] != 'M'
    ensures var x, t := IndexFrom(Print(d), cur.pos, 'M'), IndexFrom(Print(d), 0, 'T');
            x.Some? ==> t.Some? && Distance(x.value, 0) >= Distance(t.value, 0)
  {
    hide Part, TimePart, DatePart, Print;
    var s, rest := Print(d), Part(d.days, 'D') + TimePart(d);
    FindsTFromEnd(d);
    PartLetters(d.days, 'D', 'M');
    assert forall i :: 0 <= i < |Part(d.days, 'D')| ==> rest[i] == Part(d.days, 'D')[i];
    var x := IndexFrom(s, cur.pos, 'M');
    if x.Some? {
      var k := x.value - cur.pos - 1;
      assert s[x.value] == rest[k];
    }
  }

  lemma PartOfZero(c: char)
    ensures Part(0, c) == []
  {
  }

  lemma ReadsDate(d: Duration)
    requires Printable(d) && d.weeks == 0
    ensures var (years, months, days, cur) := ParseDate(Print(d), 0, IndexFrom(Print(d), 0, 'T'));
            && years == d.years && months == d.months && days == d.days
            && Ahead(Print(d), cur, TimePart(d)) && Print(d)[cur.pos] != 'W'
  {
    hide Part, Take, TimePart;
    var s, time := Print(d), TimePart(d);
    var r2 := Part(d.days, 'D') + time;
    var r1 := Part(d.months, 'M') + r2;
    PartOfZero('W');
    assert s[1..] == Part(d.years, 'Y') + r1;
    TimeLetters(d, 'Y');
    TimeLetters(d, 'D');
    PartLetters(d.months, 'M', 'Y');
    PartLetters(d.days, 'D', 'Y');
    TakesPart(s, Cursor(0, false), d.years, 'Y', r1);
    var c1 := Take(s, Cursor(0, false), IndexFrom(s, 0, 'Y')).1;
    TakesMonths(d, c1);
    var x, t := IndexFrom(s, c1.pos, 'M'), IndexFrom(s, 0, 'T');
    var early := x.Some? && (t.None? || Distance(x.value, 0) < Distance(t.value, 0));
    var c2 := Take(s, c1, if early then x else None).1;
    TakesPart(s, c2, d.days, 'D', time);
  }

  lemma LastIsFirst(s: string, from: nat, c: char, k: nat)
    requires IndexFrom(s, from, c) == Some(k) && c !in s[k + 1..]
    ensures LastFrom(s, from, c) == Some(k)
  {
    assert forall i :: k < i < |s| ==> s[i] == s[k + 1..][i - k - 1];
  }

  lemma ReadsTime(d: Duration)
    requires Printable(d) && HasTime(d)
    ensures var (hours, minutes, seconds, cur) := ParseTime(Print(d), 0, 1 + |DatePart(d)|);
            && hours == d.hours && minutes == d.minutes && seconds == d.seconds
            && Ahead(Print(d), cur, []) && Print(d)[cur.pos] != 'W'
  {
    hide Part, Take, DatePart, SecondPart;
    var s, t, secs := Print(d), 1 + |DatePart(d)|, SecondPart(d);
    var r1 := Part(d.minutes, 'M') + secs;
    PrintIsShort(d);
    assert s[t] == 'T' && s[t + 1..] == Part(d.hours, 'H') + r1;
    SecondLetters(d, 'H');
    SecondLetters(d, 'M');
    PartLetters(d.minutes, 'M', 'H');
    var c4 := Cursor(t, true);
    TakesPart(s, c4, d.hours, 'H', r1);
    var c5 := Take(s, c4, IndexFrom(s, t, 'H')).1;
    TakesMinutes(s, c5, d, t);
    var x := LastFrom(s, c5.pos, 'M');
    var c6 := Take(s, c5, if x.Some? && Distance(x.value, 0) > Distance(t, 0) then x else None).1;
    TakesSeconds(s, c6, d);
  }

  lemma SecondLetters(d: Duration, x: char)
    requires !IsDigit(x) && x != 'S'
    ensures x !in SecondPart(d)
  {
    assert Digits(Num(Uint32(d.seconds)));
  }

  lemma TakesMinutes(s: string, cur: Cursor, d: Duration, t: nat)
    requires Printable(d) && Ahead(s, cur, Part(d.minutes, 'M') + SecondPart(d)) && t <= cur.pos &&
             |s| < 0x1_0000_0000_0000_0000
    requires s[cur.pos] == 'T' || s[cur.pos] == 'H'
    ensures var x := LastFrom(s, cur.pos, 'M');
            var (v, cur') := Take(s, cur, if x.Some? && Distance(x.value, 0) > Distance(t, 0) then x else None);
            && v == d.minutes && Ahead(s, cur', SecondPart(d))
            && (s[cur'.pos] == 'T' || s[cur'.pos] == 'H' || s[cur'.pos] == 'M')
  {
    hide Part, Take, SecondPart, Distance;
    SecondLetters(d, 'M');
    TakesPart(s, cur, d.minutes, 'M', SecondPart(d));
    LastIsFirstOrNone(s, cur, d.minutes, SecondPart(d));
    TakesNothing(s, cur);
    var x := LastFrom(s, cur.pos, 'M');
    if x.Some? { DistanceIsExact(x.value); }
    DistanceIsExact(t);
  }

  lemma DistanceIsExact(x: nat)
    requires x < 0x1_0000_0000_0000_0000
    ensures Distance(x, 0) == x
  {
  }

  /** In the text of the time, the last `M` is the only one. */
  lemma LastIsFirstOrNone(s: string, cur: Cursor, n: int, rest: string)
    requires Ahead(s, cur, Part(n, 'M') + rest) && s[cur.pos] != 'M' && Field(n) && 'M' !in rest
    ensures LastFrom(s, cur.pos, 'M') == IndexFrom(s, cur.pos, 'M')
    ensures IndexFrom(s, cur.pos, 'M').Some? ==> IndexFrom(s, cur.pos, 'M').value > cur.pos
    ensures IndexFrom(s, cur.pos, 'M').Some? <==> n > 0
  {
    hide Part, Take;
    TakesPart(s, cur, n, 'M', rest);
    if n > 0 {
      LastIsFirst(s, cur.pos, 'M', IndexFrom(s, cur.pos, 'M').value);
    } else {
      PartOfZero('M');
      assert Part(n, 'M') + rest == rest;
      NotAhead(s, cur, rest, 'M');
    }
  }

  lemma TakesSeconds(s: string, cur: Cursor, d: Duration)
    requires Printable(d) && Ahead(s, cur, SecondPart(d)) &&
             (s[cur.pos] == 'T' || s[cur.pos] == 'H' || s[cur.pos] == 'M')
    ensures var (v, cur') := Take(s, cur, IndexFrom(s, cur.pos, 'S'));
            v == d.seconds && Ahead(s, cur', []) && s[cur'.pos] != 'W'
  {
    hide Take;
    if HasSeconds(d) {
      assert SecondPart(d) == Num(d.seconds) + ['S'] + [];
      TakesField(s, cur, d.seconds, 'S', []);
    } else {
      NotAhead(s, cur, [], 'S');
      TakesNothing(s, cur);
    }
  }

  /** Parsing the text of a duration gives the duration back. */
  lemma PrintParse(d: Duration)
    requires Printable(d)
    ensures Parse(Print(d)) == Some(d)
  {
    hide Part, Take, ParseDate, ParseTime, DatePart, TimePart;
    FindsT(d);
    if d.weeks == 0 {
      ReadsDate(d);
      var (years, months, days, c3) := ParseDate(Print(d), 0, IndexFrom(Print(d), 0, 'T'));
      if HasTime(d) {
        ReadsTime(d);
        NotAhead(Print(d), ParseTime(Print(d), 0, 1 + |DatePart(d)|).3, [], 'W');
      } else {
        assert TimePart(d) == [] by { NoTime(d); }
        NotAhead(Print(d), c3, [], 'W');
      }
    } else {
      WeeksRoundTrip(d);
    }
  }

  lemma NoTime(d: Duration)
    requires !HasTime(d)
    ensures TimePart(d) == []
  {
  }

  lemma WeeksRoundTrip(d: Duration)
    requires Printable(d) && d.weeks > 0
    ensures Parse(Print(d)) == Some(d)
  {
    hide Take, Num;
    var s, c0 := Print(d), Cursor(0, false);
    FindsT(d);
    assert s[1..] == Num(d.weeks) + ['W'] + [];
    assert forall x :: x in Num(d.weeks) + ['W'] + [] ==> x == 'W' || IsDigit(x);
    NotAhead(s, c0, s[1..], 'Y');
    NotAhead(s, c0, s[1..], 'M');
    NotAhead(s, c0, s[1..], 'D');
    TakesNothing(s, c0);
    TakesField(s, c0, d.weeks, 'W', []);
  }

  /** The parser never returns weeks beside anything else, whatever the text. */
  lemma ParsedWeeksAlone(s: string)
    requires Parse(s).Some?
    ensures WeeksAlone(Parse(s).value)
  {
    hide Atoi, Distance;
    var p, t := IndexFrom(s, 0, 'P').value, IndexFrom(s, 0, 'T');
    var (years, months, days, c3) := ParseDate(s, p, t);
    assert !c3.notWeeks ==> years == 0 && months == 0 && days == 0;
    if t.Some? { assert ParseTime(s, p, t.value).3.notWeeks; }
  }

  /** Parsing undoes printing exactly for the durations whose weeks stand alone. */
  lemma PrintParseIsExact(d: Duration)
    requires FieldsFit(d)
    ensures Parse(Print(d)) == Some(d) <==> WeeksAlone(d)
  {
    hide Parse, Print;
    if WeeksAlone(d) { PrintParse(d); }
    if Parse(Print(d)) == Some(d) { ParsedWeeksAlone(Print(d)); }
  }

  const WEEK_AND_DAY := INSTANT.(weeks := 1, days := 1)

  lemma WeekAndDayText()
    ensures Print(WEEK_AND_DAY) == "P1W1D"
  {
    hide HasTime, TimePart, Part;
    PartOfOne('W');
    PartOfOne('D');
    PartOfZero('Y');
    PartOfZero('M');
    assert DatePart(WEEK_AND_DAY) == "1W1D";
    NoTimeInWeeks();
  }

  lemma PartOfOne(c: char)
    ensures Part(1, c) == ['1', c]
  {
    NumOfOne();
    hide Num;
  }

  lemma NumOfOne()
    ensures Num(1) == "1" && Uint32(1) == 1
  {
  }

  lemma NoTimeInWeeks()
    ensures TimePart(WEEK_AND_DAY) == []
  {
    hide Num;
  }

  /** One week and one day: the text is read as one day. */
  lemma WeekIsLost()
    ensures Parse(Print(WEEK_AND_DAY)) == Some(INSTANT.(days := 1))
  {
    hide Atoi, Print;
    WeekAndDayText();
    var s := "P1W1D";
    assert s[1] == '1' && s[2] == 'W' && s[3] == '1';
    assert IndexFrom(s, 0, 'P') == Some(0) && IndexFrom(s, 0, 'T') == None && IndexFrom(s, 0, 'Y') == None;
    assert IndexFrom(s, 0, 'M') == None && IndexFrom(s, 0, 'D') == Some(4) && IndexFrom(s, 4, 'W') == None;
    assert s[1..] == Num(1) + "W1D";
    AtoiNum(1, "W1D");
  }

  // ----- other texts -----

  /** A text without a P is no duration. */
  lemma NeedsP(s: string)
    ensures 'P' !in s ==> Parse(s) == None
    ensures 'P' in s && 'W' !in s ==> Parse(s).Some?
  {
  }

  lemma YearsThenWeeks(s: string, n: nat, m: nat)
    requires s == "P" + Num(n) + "Y" + Num(m) + "W"
    ensures IndexFrom(s, 0, 'T') == None
    ensures var c1 := Cursor(1 + |Num(n)|, true);
            && Take(s, Cursor(0, false), IndexFrom(s, 0, 'Y')) == (n, c1)
            && IndexFrom(s, c1.pos, 'M') == None && IndexFrom(s, c1.pos, 'D') == None
            && IndexFrom(s, c1.pos, 'W').Some?
  {
    hide Num, Take, IndexFrom;
    var rest := Num(m) + ['W'] + [];
    var c0, c1 := Cursor(0, false), Cursor(1 + |Num(n)|, true);
    assert s[1..] == Num(n) + ['Y'] + rest && s[0] == 'P';
    assert Digits(Num(n)) && Digits(Num(m));
    TakesField(s, c0, n, 'Y', rest);
    assert s[c1.pos] == 'Y';
    NotAhead(s, c1, rest, 'M');
    NotAhead(s, c1, rest, 'D');
    NotAhead(s, c0, s[1..], 'T');
    TakesField(s, c1, m, 'W', []);
  }

  /** Weeks beside a number of years are refused. */
  lemma WeeksBesideYears(n: nat, m: nat)
    ensures Parse("P" + Num(n) + "Y" + Num(m) + "W") == None
  {
    hide Num, Take, IndexFrom;
    var s := "P" + Num(n) + "Y" + Num(m) + "W";
    YearsThenWeeks(s, n, m);
    TakesNothing(s, Cursor(1 + |Num(n)|, true));
  }

  const TWICE := "PT1M2M3S"

  lemma TwiceLetters()
    ensures IndexFrom(TWICE, 0, 'P') == Some(0) && IndexFrom(TWICE, 0, 'T') == Some(1)
    ensures IndexFrom(TWICE, 0, 'M') == Some(3) && IndexFrom(TWICE, 5, 'S') == Some(7)
    ensures LastFrom(TWICE, 1, 'M') == Some(5)
  {
    hide LastFrom;
    assert TWICE[3] == 'M' && TWICE[5] == 'M' && TWICE[6] == '3' && TWICE[7] == 'S';
  }

  lemma TwiceLacks(c: char)
    requires c == 'Y' || c == 'D' || c == 'H' || c == 'W'
    ensures IndexFrom(TWICE, 0, c) == None && IndexFrom(TWICE, 1, c) == None && IndexFrom(TWICE, 7, c) == None
  {
    hide IndexFrom;
  }

  lemma TwiceNumbers()
    ensures Atoi(TWICE[2..]) == 1 && Atoi(TWICE[6..]) == 3
  {
    hide Atoi;
    NumIsDecimal(1);
    NumIsDecimal(3);
    assert TWICE[2..] == Num(1) + "M2M3S" && TWICE[6..] == Num(3) + "S";
    AtoiNum(1, "M2M3S");
    AtoiNum(3, "S");
  }

  /** Of two numbers of minutes the first one counts, and the seconds stand behind the second. */
  lemma MinutesTwice()
    ensures Parse(TWICE) == Some(INSTANT.(minutes := 1, seconds := 3))
  {
    hide Atoi, IndexFrom, LastFrom;
    TwiceLetters();
    TwiceLacks('Y');
    TwiceLacks('D');
    TwiceLacks('H');
    TwiceLacks('W');
    TwiceNumbers();
  }

  // ----- numbers and letters, in so many words -----

  function Power10(n: nat): nat { if n == 0 then 1 else 10 * Power10(n - 1) }

  /** A number is printed in decimal: one more digit for every power of ten, and the digits as they are written. */
  lemma {:induction false} NumIsDecimal(n: nat)
    ensures n > 0 ==> Power10(|Num(n)| - 1) <= n < Power10(|Num(n)|)
    ensures n < 10 ==> Num(n) == ["0123456789"[n]]
  {
    if n >= 10 { NumIsDecimal(n / 10); }
  }

  function Shown(n: int, letter: string): string { if n > 0 then Num(n) + letter else "" }

  function ShownDate(d: Duration): string {
    Shown(d.years, "Y") + Shown(d.months, "M") + Shown(d.weeks, "W") + Shown(d.days, "D")
  }

  function ShownTime(d: Duration): string {
    Shown(d.hours, "H") + Shown(d.minutes, "M") +
    (if d.seconds > 0 || d == INSTANT then Num(d.seconds) + "S" else "")
  }

  lemma DateLayout(d: Duration)
    requires FieldsFit(d)
    ensures DatePart(d) == ShownDate(d)
  {
    ShownPart(d.years, 'Y');
    ShownPart(d.months, 'M');
    ShownPart(d.weeks, 'W');
    ShownPart(d.days, 'D');
    hide Num, Part, Shown;
  }

  lemma TimeLayout(d: Duration)
    requires FieldsFit(d)
    ensures TimePart(d) == if ShownTime(d) == "" then "" else "T" + ShownTime(d)
  {
    ShownPart(d.hours, 'H');
    ShownPart(d.minutes, 'M');
    hide Num, Part, Shown;
    var seconds := if d.seconds > 0 || d == INSTANT then Num(d.seconds) + "S" else "";
    assert SecondPart(d) == seconds;
    assert ShownTime(d) == Part(d.hours, 'H') + Part(d.minutes, 'M') + seconds;
  }

  /** The text of a duration, letter by letter; a field that is zero is left out, unless nothing would be left. */
  lemma PrintLayout(d: Duration)
    requires FieldsFit(d)
    ensures Print(d) == "P" + ShownDate(d) + (if ShownTime(d) == "" then "" else "T" + ShownTime(d))
    ensures Print(INSTANT) == "PT0S"
  {
    DateLayout(d);
    TimeLayout(d);
    NumIsDecimal(0);
    hide DatePart, TimePart, ShownDate, ShownTime;
    InstantLayout();
  }

  lemma InstantLayout()
    ensures Print(INSTANT) == "PT0S"
  {
    PartOfZero('Y');
    PartOfZero('M');
    PartOfZero('W');
    PartOfZero('D');
    PartOfZero('H');
    hide Part;
    assert Num(0) == "0";
  }

  lemma ShownPart(n: int, letter: char)
    requires Field(n)
    ensures Part(n, letter) == Shown(n, [letter]) && (Part(n, letter) == [] <==> n == 0)
  {
    hide Num;
  }

  /** Signs and white space in front of a number. */
  lemma AtoiSigns(sign: char, n: nat, rest: string)
    requires (rest == [] || !IsDigit(rest[0])) && (sign == '-' || sign == '+' || sign == ' ')
    ensures Atoi([sign] + (Num(n) + rest)) == if sign == '-' then 0 - n else n
  {
    hide Num, Value;
    var s := Num(n) + rest;
    RunIsMaximal(Num(n), rest);
    ValueOfNum(n);
    AtoiNum(n, rest);
    assert s[..|Num(n)|] == Num(n);
    assert ([sign] + s)[1..] == s && ([sign] + s)[0] == sign;
  }

  // ----- seconds -----

  /** C division, which truncates toward zero. */
  function Quotient(n: int, k: int): int
    requires k > 0
  {
    if n >= 0 then n / k else -(-n / k)
  }

  lemma DividedYear(n: int)
    ensures var q := Quotient(n, 31536000);
            && (n >= 0 ==> q >= 0 && 0 <= n - q * 31536000 < 31536000)
            && (n <= 0 ==> q <= 0 && -31536000 < n - q * 31536000 <= 0)
  {
  }

  lemma DividedMonth(n: int)
    ensures var q := Quotient(n, 2678400);
            && (n >= 0 ==> q >= 0 && 0 <= n - q * 2678400 < 2678400)
            && (n <= 0 ==> q <= 0 && -2678400 < n - q * 2678400 <= 0)
  {
  }

  lemma DividedDay(n: int)
    ensures var q := Quotient(n, 86400);
            (n >= 0 ==> q >= 0 && 0 <= n - q * 86400 < 86400) && (n <= 0 ==> q <= 0 && -86400 < n - q * 86400 <= 0)
  {
  }

  lemma DividedHour(n: int)
    ensures var q := Quotient(n, 3600);
            (n >= 0 ==> q >= 0 && 0 <= n - q * 3600 < 3600) && (n <= 0 ==> q <= 0 && -3600 < n - q * 3600 <= 0)
  {
  }

  lemma DividedMinute(n: int)
    ensures var q := Quotient(n, 60);
            (n >= 0 ==> q >= 0 && 0 <= n - q * 60 < 60) && (n <= 0 ==> q <= 0 && -60 < n - q * 60 <= 0)
  {
  }

  /** `duration2time`: months of 31 days and years of 365. */
  function Duration2Time(d: Duration): int {
    d.seconds + d.minutes * 60 + d.hours * 3600 + d.days * 86400 + d.weeks * 86400 * 7 +
    d.months * 86400 * 31 + d.years * 86400 * 365
  }

  /** `duration_set_time`. */
  method SetTime(time: int) returns (d: Duration)
    ensures Duration2Time(d) == time && d.weeks == 0
    ensures time >= 0 ==> Reduced(d)
    ensures time <= 0 ==> Reduced(Negated(d))
  {
    hide Quotient, Reduced;
    DividedYear(time);
    var years := Quotient(time, 31536000);
    var rest := time - years * 31536000;
    ghost var inYear := rest;
    DividedMonth(rest);
    var months := Quotient(rest, 2678400);
    rest := rest - months * 2678400;
    DividedDay(rest);
    var days := Quotient(rest, 86400);
    rest := rest - days * 86400;
    ghost var inDay := rest;
    DividedHour(rest);
    var hours := Quotient(rest, 3600);
    rest := rest - hours * 3600;
    DividedMinute(rest);
    var minutes := Quotient(rest, 60);
    rest := rest - minutes * 60;
    d := Duration(years, months, 0, days, hours, minutes, rest);
    if time >= 0 { FieldsReduced(d, inYear, inDay); }
    if time <= 0 { FieldsReduced(Negated(d), -inYear, -inDay); }
  }

  /** Fields that were split off one after the other. */
  lemma FieldsReduced(d: Duration, inYear: int, inDay: int)
    requires d.years >= 0 && d.weeks == 0 && 0 <= inYear < 31536000 && d.months >= 0
    requires inYear == d.months * 2678400 + d.days * 86400 + inDay && 0 <= d.days * 86400 + inDay < 2678400
    requires d.days >= 0 && 0 <= inDay < 86400 && d.hours >= 0 && d.minutes >= 0
    requires inDay == d.hours * 3600 + d.minutes * 60 + d.seconds
    requires 0 <= d.minutes * 60 + d.seconds < 3600 && 0 <= d.seconds < 60
    ensures Reduced(d)
  {
    var n := d.months * 31 + d.days;
    assert inYear == n * 86400 + inDay;
  }

  function Negated(d: Duration): Duration {
    Duration(-d.years, -d.months, -d.weeks, -d.days, -d.hours, -d.minutes, -d.seconds)
  }

  /** Every field but the years is smaller than one unit of the field above it. */
  predicate Reduced(d: Duration) {
    && d.years >= 0 && d.weeks == 0
    && 0 <= d.seconds < 60 && 0 <= d.minutes < 60 && 0 <= d.hours < 24
    && 0 <= d.days < 31 && 0 <= d.months && d.months * 31 + d.days < 365
  }

  /** Every unit in terms of a smaller one: in no duration does it matter which is used. */
  lemma UnitsConvert(d: Duration, n: int)
    ensures Duration2Time(d.(seconds := n)) == Duration2Time(d.(seconds := 0)) + n
    ensures Duration2Time(d.(minutes := d.minutes + n)) == Duration2Time(d.(seconds := d.seconds + 60 * n))
    ensures Duration2Time(d.(hours := d.hours + n)) == Duration2Time(d.(minutes := d.minutes + 60 * n))
    ensures Duration2Time(d.(days := d.days + n)) == Duration2Time(d.(hours := d.hours + 24 * n))
    ensures Duration2Time(d.(weeks := d.weeks + n)) == Duration2Time(d.(days := d.days + 7 * n))
    ensures Duration2Time(d.(months := d.months + n)) == Duration2Time(d.(days := d.days + 31 * n))
    ensures Duration2Time(d.(years := d.years + n)) == Duration2Time(d.(days := d.days + 365 * n))
    ensures Duration2Time(INSTANT) == 0
  {
  }

  lemma WeeksParse(n: nat)
    requires n <= 0x7fff_ffff
    ensures Parse("P" + Num(n) + "W") == Some(INSTANT.(weeks := n))
  {
    hide Take, Num;
    var s, c0 := "P" + Num(n) + "W", Cursor(0, false);
    assert s[1..] == Num(n) + ['W'] + [];
    assert forall x :: x in Num(n) + ['W'] + [] ==> x == 'W' || IsDigit(x);
    NotAhead(s, c0, s[1..], 'Y');
    NotAhead(s, c0, s[1..], 'M');
    NotAhead(s, c0, s[1..], 'D');
    NotAhead(s, c0, s[1..], 'T');
    TakesNothing(s, c0);
    TakesField(s, c0, n, 'W', []);
  }

  /** The text of a number of weeks, and the seconds it stands for. */
  lemma WeeksInSeconds(n: nat)
    requires n <= 0x7fff_ffff
    ensures var d := Parse("P" + Num(n) + "W"); d.Some? && Duration2Time(d.value) == n * 604800
  {
    hide Parse, Num;
    WeeksParse(n);
  }

  /** `duration_compare`; a null pointer sorts last, and the difference of two `time_t` becomes an `int`. */
  function Compare(d1: Option<Duration>, d2: Option<Duration>): int {
    if d1.None? && d2.None? then 0
    else if d1.None? || d2.None? then if d1.Some? then -1 else 1
    else
      var a, b := d1.value, d2.value;
      if a.years != b.years then ToInt32(a.years - b.years)
      else if a.months != b.months then ToInt32(a.months - b.months)
      else if a.weeks != b.weeks then ToInt32(a.weeks - b.weeks)
      else if a.days != b.days then ToInt32(a.days - b.days)
      else if a.hours != b.hours then ToInt32(a.hours - b.hours)
      else if a.minutes != b.minutes then ToInt32(a.minutes - b.minutes)
      else if a.seconds != b.seconds then ToInt32(a.seconds - b.seconds)
      else 0
  }

  function Sign(n: int): int { if n < 0 then -1 else if n == 0 then 0 else 1 }

  /** Reduced durations compare as the times they stand for, so a time has only one of them. */
  lemma CompareIsByTime(a: Duration, b: Duration)
    requires Reduced(a) && Reduced(b) && a.years <= MAX_FIELD && b.years <= MAX_FIELD
    ensures Sign(Compare(Some(a), Some(b))) == Sign(Duration2Time(a) - Duration2Time(b))
    ensures Duration2Time(a) == Duration2Time(b) ==> a == b
  {
    hide ToInt32, Compare;
    assert FieldsFit(a) && FieldsFit(b);
    CompareIsLexicographic(a, b);
    if a.years != b.years {
      LowerFields(a);
      LowerFields(b);
    }
  }

  /** The fields below the years amount to less than a year. */
  lemma LowerFields(d: Duration)
    requires Reduced(d)
    ensures d.years * 31536000 <= Duration2Time(d) < d.years * 31536000 + 31536000
  {
  }

  /** The first field that differs decides, in this order. */
  function FirstDifference(a: Duration, b: Duration): int {
    if a.years != b.years then a.years - b.years
    else if a.months != b.months then a.months - b.months
    else if a.weeks != b.weeks then a.weeks - b.weeks
    else if a.days != b.days then a.days - b.days
    else if a.hours != b.hours then a.hours - b.hours
    else if a.minutes != b.minutes then a.minutes - b.minutes
    else a.seconds - b.seconds
  }

  lemma CompareIsLexicographic(a: Duration, b: Duration)
    requires FieldsFit(a) && FieldsFit(b)
    ensures Compare(Some(a), Some(b)) == FirstDifference(a, b)
    ensures Compare(Some(a), Some(b)) == 0 <==> a == b
  {
    hide ToInt32;
    Untruncated(a.years - b.years);
    Untruncated(a.months - b.months);
    Untruncated(a.weeks - b.weeks);
    Untruncated(a.days - b.days);
    Untruncated(a.hours - b.hours);
    Untruncated(a.minutes - b.minutes);
    Untruncated(a.seconds - b.seconds);
  }

  lemma Untruncated(n: int)
    requires -0x8000_0000 <= n < 0x8000_0000
    ensures ToInt32(n) == n
  {
  }

  /** A duration that is not there sorts behind all others. */
  lemma CompareWithNone(d: Duration)
    ensures Compare(None, None) == 0 && Compare(Some(d), None) < 0 && Compare(None, Some(d)) > 0
  {
  }

  lemma ReducedRoundTrip(d: Duration)
    requires Reduced(d) && Duration2Time(d) < 86400 * 365 * (MAX_FIELD + 1)
    ensures Parse(Print(d)) == Some(d)
  {
    hide Print, Parse;
    LowerFields(d);
    assert Printable(d);
    PrintParse(d);
  }

  /** A time that is set, printed, parsed and converted is the same time. */
  method TimeRoundTrip(time: int) returns (back: Option<int>)
    requires 0 <= time < 86400 * 365 * (MAX_FIELD + 1)
    ensures back == Some(time)
  {
    hide Print, Parse;
    var d := SetTime(time);
    ReducedRoundTrip(d);
    var text, _ := Duration2String(d);
    back := Some(Duration2Time(Parse(text).value));
  }

  /** Durations set from two times compare as the times do. */
  method CompareTimes(time1: int, time2: int) returns (order: int)
    requires 0 <= time1 < 86400 * 365 * (MAX_FIELD + 1) && 0 <= time2 < 86400 * 365 * (MAX_FIELD + 1)
    ensures Sign(order) == Sign(time1 - time2)
  {
    var d1 := SetTime(time1);
    var d2 := SetTime(time2);
    CompareIsByTime(d1, d2);
    order := Compare(Some(d1), Some(d2));
  }
}
