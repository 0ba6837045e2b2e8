/**
 * `DataExtractor.parse_datetime`: the cell text is tried against twelve
 * `strptime` formats in a fixed order and the first one that accepts it is
 * rendered with `datetime.isoformat()`, i.e. ISO 8601 extended format
 * `YYYY-MM-DDTHH:MM:SS` (ISO 8601:2004 section 4.3.2); text that no format
 * accepts is returned unchanged, and empty text gives no timestamp.
 *
 * A format is a sequence of numeric fields and literal separators. Each field
 * is scanned with the alternatives of CPython's `_strptime` regular
 * expressions, tried left to right, the match anchored at the start of the
 * text; text left over after the last field is rejected ("unconverted data
 * remains"); the fields must then form a real `datetime` (year at least 1,
 * a day that exists in its month, seconds at most 59).
 */
module DateParsing {
  import opened Wrappers
  import opened Text

  datatype Field = Year | Month | Day | Hour | Minute | Second

  /** One directive of a format: `%Y`, `%m`, ... or a literal separator. */
  datatype Item = Num(field: Field) | Sep(c: char)

  type Pattern = seq<Item>

  /** The formats of `parse_datetime`, in the order it tries them. */
  const Patterns: seq<Pattern> := [
    [Num(Year), Sep('-'), Num(Month), Sep('-'), Num(Day), Sep(' '), Num(Hour), Sep(':'), Num(Minute), Sep(':'), Num(Second)],  // %Y-%m-%d %H:%M:%S
    [Num(Year), Sep('/'), Num(Month), Sep('/'), Num(Day), Sep(' '), Num(Hour), Sep(':'), Num(Minute), Sep(':'), Num(Second)],  // %Y/%m/%d %H:%M:%S
    [Num(Year), Sep('-'), Num(Month), Sep('-'), Num(Day), Sep(' '), Num(Hour), Sep(':'), Num(Minute)],                         // %Y-%m-%d %H:%M
    [Num(Year), Sep('/'), Num(Month), Sep('/'), Num(Day), Sep(' '), Num(Hour), Sep(':'), Num(Minute)],                         // %Y/%m/%d %H:%M
    [Num(Year), Sep('-'), Num(Month), Sep('-'), Num(Day)],                                                                     // %Y-%m-%d
    [Num(Year), Sep('/'), Num(Month), Sep('/'), Num(Day)],                                                                     // %Y/%m/%d
    [Num(Month), Sep('/'), Num(Day), Sep('/'), Num(Year), Sep(' '), Num(Hour), Sep(':'), Num(Minute), Sep(':'), Num(Second)],  // %m/%d/%Y %H:%M:%S
    [Num(Month), Sep('/'), Num(Day), Sep('/'), Num(Year), Sep(' '), Num(Hour), Sep(':'), Num(Minute)],                         // %m/%d/%Y %H:%M
    [Num(Month), Sep('/'), Num(Day), Sep('/'), Num(Year)],                                                                     // %m/%d/%Y
    [Num(Day), Sep('/'), Num(Month), Sep('/'), Num(Year), Sep(' '), Num(Hour), Sep(':'), Num(Minute), Sep(':'), Num(Second)],  // %d/%m/%Y %H:%M:%S
    [Num(Day), Sep('/'), Num(Month), Sep('/'), Num(Year), Sep(' '), Num(Hour), Sep(':'), Num(Minute)],                         // %d/%m/%Y %H:%M
    [Num(Day), Sep('/'), Num(Month), Sep('/'), Num(Year)]                                                                      // %d/%m/%Y
  ]

  datatype DateTime = DateTime(year: nat, month: nat, day: nat, hour: nat, minute: nat, second: nat)

  /** What `strptime` starts from before the fields of the text are applied. */
  const Default := DateTime(1900, 1, 1, 0, 0, 0)

  predicate IsLeapYear(y: nat) {
    y % 4 == 0 && (y % 100 != 0 || y % 400 == 0)
  }

  function DaysInMonth(y: nat, m: nat): (n: nat)
    requires 1 <= m <= 12
    ensures 28 <= n <= 31
  {
    if m == 2 then (if IsLeapYear(y) then 29 else 28)
    else if m == 4 || m == 6 || m == 9 || m == 11 then 30
    else 31
  }

  /** The checks `datetime(...)` makes on the scanned fields. */
  predicate ValidDateTime(dt: DateTime) {
    1 <= dt.year <= 9999 && 1 <= dt.month <= 12 && 1 <= dt.day <= DaysInMonth(dt.year, dt.month)
    && dt.hour <= 23 && dt.minute <= 59 && dt.second <= 59
  }

  function Get(dt: DateTime, f: Field): nat {
    match f
    case Year => dt.year
    case Month => dt.month
    case Day => dt.day
    case Hour => dt.hour
    case Minute => dt.minute
    case Second => dt.second
  }

  function Set(dt: DateTime, f: Field, v: nat): (r: DateTime)
    ensures Get(r, f) == v
    ensures forall g :: g != f ==> Get(r, g) == Get(dt, g)
  {
    match f
    case Year => dt.(year := v)
    case Month => dt.(month := v)
    case Day => dt.(day := v)
    case Hour => dt.(hour := v)
    case Minute => dt.(minute := v)
    case Second => dt.(second := v)
  }

  /** A scanned field: its value and the number of characters it took. */
  datatype Token = Token(value: nat, width: nat)

  predicate Between(c: char, lo: char, hi: char) {
    lo <= c <= hi
  }

  function Value2(s: string): nat
    requires |s| >= 2 && IsDigit(s[0]) && IsDigit(s[1])
  {
    10 * DigitValue(s[0]) + DigitValue(s[1])
  }

  function Value4(s: string): nat
    requires |s| >= 4 && AllDigits(s[..4])
  {
    100 * Value2(s) + Value2(s[2..])
  }

  /** The values the regular expression of each field can produce. */
  predicate InFieldRange(f: Field, v: nat) {
    match f
    case Year => v <= 9999
    case Month => 1 <= v <= 12
    case Day => 1 <= v <= 31
    case Hour => v <= 23
    case Minute => v <= 59
    case Second => v <= 61
  }

  /**
   * One field, scanned like CPython's `_strptime` patterns:
   * `%Y` is `\d\d\d\d`, `%m` is `1[0-2]|0[1-9]|[1-9]`,
   * `%d` is `3[01]|[12]\d|0[1-9]|[1-9]| [1-9]`, `%H` is `2[0-3]|[0-1]\d|\d`,
   * `%M` is `[0-5]\d|\d` and `%S` is `6[0-1]|[0-5]\d|\d`.
   * The first alternative that matches is taken.
   */
  function ScanField(f: Field, s: string): (r: Option<Token>)
    ensures r.Some? ==> 1 <= r.value.width <= |s| && InFieldRange(f, r.value.value)
    ensures r.Some? ==> forall i :: 0 <= i < r.value.width ==> IsDigit(s[i]) || s[i] == ' '
    // the value read: four digits for a year, two digits, one digit, or a space and a digit for a day
    ensures r.Some? && f == Year ==> r.value.width == 4 && AllDigits(s[..4]) && r.value.value == Value4(s)
    ensures r.Some? && r.value.width == 1 ==> IsDigit(s[0]) && r.value.value == DigitValue(s[0])
    ensures r.Some? && f != Year && r.value.width == 2 && s[0] != ' ' ==>
      IsDigit(s[0]) && IsDigit(s[1]) && r.value.value == Value2(s)
    ensures r.Some? && r.value.width == 2 && s[0] == ' ' ==> f == Day && IsDigit(s[1]) && r.value.value == DigitValue(s[1])
    // the one-digit alternatives `[1-9]` and `\d`, and the space-padded day ` [1-9]`
    ensures f != Year && |s| >= 1 && IsDigit(s[0]) && (|s| == 1 || !IsDigit(s[1]))
            && ((f == Month || f == Day) ==> s[0] != '0')
            ==> r == Some(Token(DigitValue(s[0]), 1))
    ensures f == Day && |s| >= 2 && s[0] == ' ' && IsDigit(s[1]) && s[1] != '0' ==> r == Some(Token(DigitValue(s[1]), 2))
  {
    var two := |s| >= 2 && IsDigit(s[0]) && IsDigit(s[1]);
    var one := |s| >= 1 && IsDigit(s[0]);
    match f
    case Year =>
      if |s| >= 4 && AllDigits(s[..4]) then
        assert forall i :: 0 <= i < 4 ==> IsDigit(s[..4][i]);
        Some(Token(Value4(s), 4))
      else None
    case Month =>
      if two && s[0] == '1' && Between(s[1], '0', '2') then Some(Token(Value2(s), 2))
      else if two && s[0] == '0' && s[1] != '0' then Some(Token(Value2(s), 2))
      else if one && s[0] != '0' then Some(Token(DigitValue(s[0]), 1))
      else None
    case Day =>
      if two && s[0] == '3' && Between(s[1], '0', '1') then Some(Token(Value2(s), 2))
      else if two && Between(s[0], '1', '2') then Some(Token(Value2(s), 2))
      else if two && s[0] == '0' && s[1] != '0' then Some(Token(Value2(s), 2))
      else if one && s[0] != '0' then Some(Token(DigitValue(s[0]), 1))
      else if |s| >= 2 && s[0] == ' ' && IsDigit(s[1]) && s[1] != '0' then Some(Token(DigitValue(s[1]), 2))
      else None
    case Hour =>
      if two && s[0] == '2' && Between(s[1], '0', '3') then Some(Token(Value2(s), 2))
      else if two && Between(s[0], '0', '1') then Some(Token(Value2(s), 2))
      else if one then Some(Token(DigitValue(s[0]), 1))
      else None
    case Minute =>
      if two && Between(s[0], '0', '5') then Some(Token(Value2(s), 2))
      else if one then Some(Token(DigitValue(s[0]), 1))
      else None
    case Second =>
      if two && s[0] == '6' && Between(s[1], '0', '1') then Some(Token(Value2(s), 2))
      else if two && Between(s[0], '0', '5') then Some(Token(Value2(s), 2))
      else if one then Some(Token(DigitValue(s[0]), 1))
      else None
  }

  /**
   * Matches the whole of `s` against the pattern, applying each scanned field
   * to `acc`; `None` when a field or separator does not match or when text
   * remains after the last directive.
   */
  function Parse(p: Pattern, s: string, acc: DateTime): Option<DateTime>
    decreases p
  {
    if p == [] then
      if s == [] then Some(acc) else None
    else match p[0]
      case Sep(c) =>
        if s != [] && s[0] == c then Parse(p[1..], s[1..], acc) else None
      case Num(f) =>
        match ScanField(f, s)
        case None => None
        case Some(t) => Parse(p[1..], s[t.width..], Set(acc, f, t.value))
  }

  /** `datetime.strptime(s, p)`: the parse, kept only when it is a real date and time. */
  function Strptime(p: Pattern, s: string): (r: Option<DateTime>)
    ensures r.Some? ==> ValidDateTime(r.value)
    ensures r.Some? ==> Parse(p, s, Default) == r
    ensures Parse(p, s, Default).Some? && ValidDateTime(Parse(p, s, Default).value) ==> r == Parse(p, s, Default)
  {
    match Parse(p, s, Default)
    case Some(dt) => if ValidDateTime(dt) then Some(dt) else None
    case None => None
  }

  /** The index of the first format that accepts the text, if any. */
  function MatchingPattern(text: string): (r: Option<nat>)
    ensures r.Some? ==> r.value < |Patterns| && Strptime(Patterns[r.value], text).Some?
    ensures r.Some? ==> forall j :: 0 <= j < r.value ==> Strptime(Patterns[j], text).None?
    ensures r.None? <==> forall j :: 0 <= j < |Patterns| ==> Strptime(Patterns[j], text).None?
  {
    FirstIndex(Patterns, (p: Pattern) => Strptime(p, text).Some?)
  }

  function Pad2(v: nat): (s: string)
    requires v < 100
    ensures |s| == 2 && IsDigit(s[0]) && IsDigit(s[1]) && Value2(s) == v
  {
    [DigitChar(v / 10), DigitChar(v % 10)]
  }

  function Pad4(v: nat): (s: string)
    requires v < 10000
    ensures |s| == 4 && AllDigits(s) && Value4(s) == v
  {
    var s := Pad2(v / 100) + Pad2(v % 100);
    assert s[..4] == s && s[2..] == Pad2(v % 100);
    s
  }

  /** Every field fits the width `isoformat` gives it. */
  predicate Printable(dt: DateTime) {
    dt.year < 10000 && dt.month < 100 && dt.day < 100 && dt.hour < 100 && dt.minute < 100 && dt.second < 100
  }

  /** `datetime.isoformat()` for a value without microseconds or time zone. */
  function Iso(dt: DateTime): (s: string)
    requires Printable(dt)
    ensures |s| == 19
  {
    Pad4(dt.year) + "-" + Pad2(dt.month) + "-" + Pad2(dt.day) + "T"
    + Pad2(dt.hour) + ":" + Pad2(dt.minute) + ":" + Pad2(dt.second)
  }

  /** Reads the fields back out of a `YYYY-MM-DDTHH:MM:SS` string. */
  function ReadIso(s: string): DateTime
    requires |s| == 19 && AllDigits(s[..4])
    requires forall i :: i in {5, 6, 8, 9, 11, 12, 14, 15, 17, 18} ==> IsDigit(s[i])
  {
    DateTime(Value4(s), Value2(s[5..]), Value2(s[8..]), Value2(s[11..]), Value2(s[14..]), Value2(s[17..]))
  }

  /** `isoformat` loses nothing: the output reads back as the same instant. */
  lemma IsoRoundTrip(dt: DateTime)
    requires Printable(dt)
    ensures var s := Iso(dt);
      && AllDigits(s[..4]) && s[4] == '-' && s[7] == '-' && s[10] == 'T' && s[13] == ':' && s[16] == ':'
      && (forall i :: i in {5, 6, 8, 9, 11, 12, 14, 15, 17, 18} ==> IsDigit(s[i]))
      && ReadIso(s) == dt
  {
    var s := Iso(dt);
    assert s[..4] == Pad4(dt.year);
    assert s[5..][..2] == Pad2(dt.month);
    assert s[8..][..2] == Pad2(dt.day);
    assert s[11..][..2] == Pad2(dt.hour);
    assert s[14..][..2] == Pad2(dt.minute);
    assert s[17..] == Pad2(dt.second);
  }

  /**
   * `parse_datetime`: `None` for empty text; otherwise the ISO rendering of
   * the first format that accepts the text, or the text itself when none does.
   */
  function ParseDatetime(text: string): (r: Option<string>)
    ensures r.None? <==> text == []
    ensures forall k ::
      (0 <= k < |Patterns| && Strptime(Patterns[k], text).Some?
       && forall j :: 0 <= j < k ==> Strptime(Patterns[j], text).None?)
      ==> r == Some(Iso(Strptime(Patterns[k], text).value))
    ensures (text != [] && forall k :: 0 <= k < |Patterns| ==> Strptime(Patterns[k], text).None?)
      ==> r == Some(text)
  {
    if text == [] then
      NothingParsesEmpty();
      None
    else
      match MatchingPattern(text)
      case Some(k) =>
        MatchingPatternIsFirst(text);
        Some(Iso(Strptime(Patterns[k], text).value))
      case None => Some(text)
  }

  /** Any format that accepts the text while no earlier one does is the one `MatchingPattern` finds. */
  lemma MatchingPatternIsFirst(text: string)
    ensures forall k ::
      (0 <= k < |Patterns| && Strptime(Patterns[k], text).Some?
       && forall j :: 0 <= j < k ==> Strptime(Patterns[j], text).None?)
      ==> MatchingPattern(text) == Some(k)
  {
    forall k | 0 <= k < |Patterns| && Strptime(Patterns[k], text).Some?
                && forall j :: 0 <= j < k ==> Strptime(Patterns[j], text).None?
      ensures MatchingPattern(text) == Some(k)
    {
      FirstIndexAt(Patterns, (p: Pattern) => Strptime(p, text).Some?, k);
    }
  }

  lemma NothingParsesEmpty()
    ensures forall k :: 0 <= k < |Patterns| ==> Strptime(Patterns[k], []).None?
  {
    forall k | 0 <= k < |Patterns| ensures Strptime(Patterns[k], []).None? {
      assert Patterns[k] != [];
    }
  }

  /** Every field holds a value its `strptime` directive can produce. */
  predicate InRanges(dt: DateTime) {
    dt.year <= 9999 && 1 <= dt.month <= 12 && 1 <= dt.day <= 31
    && dt.hour <= 23 && dt.minute <= 59 && dt.second <= 61
  }

  lemma ValidInRanges(dt: DateTime)
    requires ValidDateTime(dt)
    ensures InRanges(dt) && Printable(dt)
  {
  }

  /** A field written zero-padded, the way `isoformat` and `strftime` write it. */
  function Pad(f: Field, v: nat): (s: string)
    requires InFieldRange(f, v)
    ensures |s| == (if f == Year then 4 else 2)
  {
    if f == Year then Pad4(v) else Pad2(v)
  }

  /** The text a pattern describes for the given fields: `strftime`, the partner of `Parse`. */
  function Render(p: Pattern, dt: DateTime): string
    requires InRanges(dt)
  {
    if p == [] then [] else ItemText(p[0], dt) + Render(p[1..], dt)
  }

  function ItemText(it: Item, dt: DateTime): string
    requires InRanges(dt)
  {
    match it
    case Sep(c) => [c]
    case Num(f) => Pad(f, Get(dt, f))
  }

  lemma RenderCons(it: Item, p: Pattern, dt: DateTime)
    requires InRanges(dt)
    ensures Render([it] + p, dt) == ItemText(it, dt) + Render(p, dt)
  {
    assert ([it] + p)[1..] == p;
  }

  /** The fields a pattern sets, taken from `dt`, applied to `acc`. */
  function Fill(acc: DateTime, p: Pattern, dt: DateTime): DateTime
    decreases p
  {
    if p == [] then acc
    else match p[0]
      case Sep(_) => Fill(acc, p[1..], dt)
      case Num(f) => Fill(Set(acc, f, Get(dt, f)), p[1..], dt)
  }

  /**
   * A zero-padded field is taken whole by the first matching alternative,
   * whatever follows it.
   */
  lemma ScanPadded(f: Field, v: nat, rest: string)
    requires InFieldRange(f, v)
    ensures ScanField(f, Pad(f, v) + rest) == Some(Token(v, |Pad(f, v)|))
  {
    if f == Year {
      ScanPaddedYear(v, rest);
    } else {
      ScanPaddedTwo(f, v, rest);
    }
  }

  lemma ScanPaddedYear(v: nat, rest: string)
    requires v <= 9999
    ensures ScanField(Year, Pad4(v) + rest) == Some(Token(v, 4))
  {
    var s := Pad4(v) + rest;
    assert s[..4] == Pad4(v);
    assert s[2..][0] == Pad4(v)[2..][0] && s[2..][1] == Pad4(v)[2..][1];
  }

  lemma ScanPaddedTwo(f: Field, v: nat, rest: string)
    requires f != Year && InFieldRange(f, v)
    ensures ScanField(f, Pad2(v) + rest) == Some(Token(v, 2))
  {
    var s := Pad2(v) + rest;
    assert s[0] == DigitChar(v / 10) && s[1] == DigitChar(v % 10);
  }

  /** Round trip: parsing the rendering of in-range fields gives those fields back. */
  lemma {:induction false} ParseRender(p: Pattern, dt: DateTime, acc: DateTime)
    requires InRanges(dt)
    ensures Parse(p, Render(p, dt), acc) == Some(Fill(acc, p, dt))
  {
    if p != [] {
      var rest := Render(p[1..], dt);
      match p[0]
      case Sep(c) =>
        assert Render(p, dt) == [c] + rest;
        assert Render(p, dt)[1..] == rest;
        ParseRender(p[1..], dt, acc);
      case Num(f) =>
        var pad := Pad(f, Get(dt, f));
        assert Render(p, dt) == pad + rest;
        ScanPadded(f, Get(dt, f), rest);
        assert (pad + rest)[|pad|..] == rest;
        ParseRender(p[1..], dt, Set(acc, f, Get(dt, f)));
    }
  }

  /** A rendering that stops before a separator the pattern still demands is rejected. */
  lemma {:induction false} ParseRenderTooShort(p: Pattern, q: Pattern, dt: DateTime, acc: DateTime)
    requires InRanges(dt)
    requires q != [] && q[0].Sep?
    ensures Parse(p + q, Render(p, dt), acc) == None
  {
    if p == [] {
      assert p + q == q;
    } else {
      var rest := Render(p[1..], dt);
      assert (p + q)[0] == p[0] && (p + q)[1..] == p[1..] + q;
      match p[0]
      case Sep(c) =>
        assert Render(p, dt) == [c] + rest;
        assert Render(p, dt)[1..] == rest;
        ParseRenderTooShort(p[1..], q, dt, acc);
      case Num(f) =>
        var pad := Pad(f, Get(dt, f));
        assert Render(p, dt) == pad + rest;
        ScanPadded(f, Get(dt, f), rest);
        assert (pad + rest)[|pad|..] == rest;
        ParseRenderTooShort(p[1..], q, dt, Set(acc, f, Get(dt, f)));
    }
  }

  /** A rendering holds only digits and the pattern's own separators. */
  lemma {:induction false} RenderChars(p: Pattern, dt: DateTime)
    requires InRanges(dt)
    ensures forall i :: 0 <= i < |Render(p, dt)| ==> IsDigit(Render(p, dt)[i]) || Sep(Render(p, dt)[i]) in p
  {
    if p != [] {
      RenderChars(p[1..], dt);
      var rest := Render(p[1..], dt);
      var head := match p[0] case Sep(c) => [c] case Num(f) => Pad(f, Get(dt, f));
      assert Render(p, dt) == head + rest;
      forall i | 0 <= i < |Render(p, dt)|
        ensures IsDigit(Render(p, dt)[i]) || Sep(Render(p, dt)[i]) in p
      {
        if i >= |head| {
          assert Render(p, dt)[i] == rest[i - |head|];
        }
      }
    }
  }

  /** Every separator a pattern demands occurs in any text it accepts. */
  lemma {:induction false} ParsedHasSeparators(p: Pattern, s: string, acc: DateTime)
    requires Parse(p, s, acc).Some?
    ensures forall c :: Sep(c) in p ==> c in s
  {
    if p != [] {
      match p[0]
      case Sep(c) =>
        ParsedHasSeparators(p[1..], s[1..], acc);
        assert forall x :: x in s[1..] ==> x in s;
      case Num(f) =>
        var t := ScanField(f, s).value;
        ParsedHasSeparators(p[1..], s[t.width..], Set(acc, f, t.value));
        assert forall x :: x in s[t.width..] ==> x in s;
    }
  }

  /** Any text a pattern accepts holds only digits, spaces and the pattern's separators. */
  lemma {:induction false} ParsedChars(p: Pattern, s: string, acc: DateTime)
    requires Parse(p, s, acc).Some?
    ensures forall i :: 0 <= i < |s| ==> IsDigit(s[i]) || s[i] == ' ' || Sep(s[i]) in p
  {
    if p != [] {
      match p[0]
      case Sep(c) =>
        ParsedChars(p[1..], s[1..], acc);
        assert forall i :: 1 <= i < |s| ==> s[i] == s[1..][i - 1];
      case Num(f) =>
        var t := ScanField(f, s).value;
        ParsedChars(p[1..], s[t.width..], Set(acc, f, t.value));
        assert forall i :: t.width <= i < |s| ==> s[i] == s[t.width..][i - t.width];
    }
  }

  lemma MissingSeparator(k: nat, s: string, c: char)
    requires k < |Patterns| && Sep(c) in Patterns[k] && c !in s
    ensures Strptime(Patterns[k], s).None?
  {
    if Parse(Patterns[k], s, Default).Some? {
      ParsedHasSeparators(Patterns[k], s, Default);
    }
  }

  /** Rendering distributes over concatenation of patterns. */
  lemma {:induction false} RenderAppend(p: Pattern, q: Pattern, dt: DateTime)
    requires InRanges(dt)
    ensures Render(p + q, dt) == Render(p, dt) + Render(q, dt)
  {
    if p == [] {
      assert p + q == q;
    } else {
      assert (p + q)[0] == p[0] && (p + q)[1..] == p[1..] + q;
      RenderAppend(p[1..], q, dt);
    }
  }

  /** The rendering of a three-field date `A s B s C`. */
  lemma RenderThree(a: Field, sep: char, b: Field, c: Field, dt: DateTime)
    requires InRanges(dt)
    ensures Render([Num(a), Sep(sep), Num(b), Sep(sep), Num(c)], dt)
         == Pad(a, Get(dt, a)) + [sep] + Pad(b, Get(dt, b)) + [sep] + Pad(c, Get(dt, c))
  {
    RenderCons(Num(c), [], dt);
    RenderCons(Sep(sep), [Num(c)], dt);
    RenderCons(Num(b), [Sep(sep), Num(c)], dt);
    RenderCons(Sep(sep), [Num(b), Sep(sep), Num(c)], dt);
    RenderCons(Num(a), [Sep(sep), Num(b), Sep(sep), Num(c)], dt);
  }

  /** The rendering of the clock part ` HH:MM`. */
  lemma RenderClock(dt: DateTime)
    requires InRanges(dt)
    ensures Render([Sep(' '), Num(Hour), Sep(':'), Num(Minute)], dt) == " " + Pad2(dt.hour) + ":" + Pad2(dt.minute)
  {
    RenderCons(Num(Minute), [], dt);
    RenderCons(Sep(':'), [Num(Minute)], dt);
    RenderCons(Num(Hour), [Sep(':'), Num(Minute)], dt);
    RenderCons(Sep(' '), [Num(Hour), Sep(':'), Num(Minute)], dt);
  }

  /** No format accepts a string whose character at `i` is neither a digit, a space nor one of its separators. */
  lemma ForeignCharRejects(k: nat, s: string, i: nat)
    requires k < |Patterns| && i < |s| && !IsDigit(s[i]) && s[i] != ' ' && Sep(s[i]) !in Patterns[k]
    ensures Strptime(Patterns[k], s).None?
  {
    if Parse(Patterns[k], s, Default).Some? {
      ParsedChars(Patterns[k], s, Default);
    }
  }

  /** Each field of a fill comes from `dt` when the pattern sets it and from `acc` otherwise. */
  lemma {:induction false} FillGet(acc: DateTime, p: Pattern, dt: DateTime, f: Field)
    ensures Get(Fill(acc, p, dt), f) == if Num(f) in p then Get(dt, f) else Get(acc, f)
    decreases p
  {
    if p != [] {
      assert forall it :: it in p <==> it == p[0] || it in p[1..];
      match p[0]
      case Sep(_) =>
        FillGet(acc, p[1..], dt, f);
      case Num(g) =>
        FillGet(Set(acc, g, Get(dt, g)), p[1..], dt, f);
    }
  }

  /** A fill reproduces `dt` when the pattern sets every field in which `dt` differs from the default. */
  lemma FillExact(p: Pattern, dt: DateTime)
    requires forall f :: Num(f) in p || Get(dt, f) == Get(Default, f)
    ensures Fill(Default, p, dt) == dt
  {
    FillGet(Default, p, dt, Year);
    FillGet(Default, p, dt, Month);
    FillGet(Default, p, dt, Day);
    FillGet(Default, p, dt, Hour);
    FillGet(Default, p, dt, Minute);
    FillGet(Default, p, dt, Second);
  }

  /** The first accepting format decides the result. */
  lemma AcceptedFirst(text: string, k: nat, dt: DateTime)
    requires k < |Patterns| && Parse(Patterns[k], text, Default) == Some(dt) && ValidDateTime(dt)
    requires forall j :: 0 <= j < k ==> Strptime(Patterns[j], text).None?
    ensures ParseDatetime(text) == Some(Iso(dt))
  {
    assert Strptime(Patterns[k], text) == Some(dt);
    if text == [] {
      NothingParsesEmpty();
    }
  }

  /** The rendering of the full "YYYY-MM-DD HH:MM:SS" format. */
  lemma RenderSeconds(dt: DateTime)
    requires InRanges(dt)
    ensures Render(Patterns[0], dt) == Pad4(dt.year) + "-" + Pad2(dt.month) + "-" + Pad2(dt.day) + " "
              + Pad2(dt.hour) + ":" + Pad2(dt.minute) + ":" + Pad2(dt.second)
  {
    var date := [Num(Year), Sep('-'), Num(Month), Sep('-'), Num(Day)];
    var clock := [Sep(' '), Num(Hour), Sep(':'), Num(Minute)];
    var secs := [Sep(':'), Num(Second)];
    assert Patterns[0] == date + clock + secs;
    RenderAppend(date + clock, secs, dt);
    RenderAppend(date, clock, dt);
    RenderThree(Year, '-', Month, Day, dt);
    RenderClock(dt);
    RenderCons(Num(Second), [], dt);
    RenderCons(Sep(':'), [Num(Second)], dt);
  }

  /** The rendering of the "YYYY-MM-DD HH:MM" format. */
  lemma RenderMinutes(dt: DateTime)
    requires InRanges(dt)
    ensures Render(Patterns[2], dt) == Pad4(dt.year) + "-" + Pad2(dt.month) + "-" + Pad2(dt.day) + " "
              + Pad2(dt.hour) + ":" + Pad2(dt.minute)
  {
    var date := [Num(Year), Sep('-'), Num(Month), Sep('-'), Num(Day)];
    var clock := [Sep(' '), Num(Hour), Sep(':'), Num(Minute)];
    assert Patterns[2] == date + clock;
    RenderAppend(date, clock, dt);
    RenderThree(Year, '-', Month, Day, dt);
    RenderClock(dt);
  }

  /** "YYYY-MM-DD HH:MM:SS" is taken by the first format and comes back in ISO form. */
  lemma SecondsFormatFirst(dt: DateTime)
    requires ValidDateTime(dt)
    ensures ParseDatetime(Pad4(dt.year) + "-" + Pad2(dt.month) + "-" + Pad2(dt.day) + " "
              + Pad2(dt.hour) + ":" + Pad2(dt.minute) + ":" + Pad2(dt.second))
         == Some(Iso(dt))
  {
    ValidInRanges(dt);
    RenderSeconds(dt);
    SecondsAccepted(dt);
    AcceptedFirst(Render(Patterns[0], dt), 0, dt);
  }

  /** The "YYYY-MM-DD HH:MM:SS" format reads its own rendering back. */
  lemma SecondsAccepted(dt: DateTime)
    requires ValidDateTime(dt)
    ensures Parse(Patterns[0], Render(Patterns[0], dt), Default) == Some(dt)
  {
    RenderAccepted(0, dt);
  }

  /**
   * A format reads back its own rendering of `dt` when `dt` differs from the
   * default only in fields the format sets.
   */
  lemma RenderAccepted(k: nat, dt: DateTime)
    requires k < |Patterns| && InRanges(dt)
    requires forall f :: Num(f) in Patterns[k] || Get(dt, f) == Get(Default, f)
    ensures Parse(Patterns[k], Render(Patterns[k], dt), Default) == Some(dt)
  {
    ParseRender(Patterns[k], dt, Default);
    FillExact(Patterns[k], dt);
  }

  /** The two seconds formats reject a "YYYY-MM-DD HH:MM" text. */
  lemma MinutesRejectsSeconds(dt: DateTime)
    requires InRanges(dt)
    ensures forall j :: 0 <= j < 2 ==> Strptime(Patterns[j], Render(Patterns[2], dt)).None?
  {
    MinutesTooShort(dt);
    MinutesHaveNoSlash(dt);
  }

  lemma MinutesTooShort(dt: DateTime)
    requires InRanges(dt)
    ensures Parse(Patterns[0], Render(Patterns[2], dt), Default).None?
  {
    assert Patterns[0] == Patterns[2] + [Sep(':'), Num(Second)];
    ParseRenderTooShort(Patterns[2], [Sep(':'), Num(Second)], dt, Default);
  }

  lemma MinutesHaveNoSlash(dt: DateTime)
    requires InRanges(dt)
    ensures Strptime(Patterns[1], Render(Patterns[2], dt)).None?
  {
    RenderChars(Patterns[2], dt);
    assert Patterns[1][1] == Sep('/');
    MissingSeparator(1, Render(Patterns[2], dt), '/');
  }

  /** "YYYY-MM-DD HH:MM" fails the seconds formats and gets ":00" seconds. */
  lemma MinutesFormat(dt: DateTime)
    requires ValidDateTime(dt) && dt.second == 0
    ensures ParseDatetime(Pad4(dt.year) + "-" + Pad2(dt.month) + "-" + Pad2(dt.day) + " "
              + Pad2(dt.hour) + ":" + Pad2(dt.minute))
         == Some(Iso(dt))
  {
    ValidInRanges(dt);
    RenderMinutes(dt);
    MinutesRejectsSeconds(dt);
    MinutesAccepted(dt);
    AcceptedFirst(Render(Patterns[2], dt), 2, dt);
  }

  /** The "YYYY-MM-DD HH:MM" format reads its own rendering back when the seconds are zero. */
  lemma MinutesAccepted(dt: DateTime)
    requires ValidDateTime(dt) && dt.second == 0
    ensures Parse(Patterns[2], Render(Patterns[2], dt), Default) == Some(dt)
  {
    RenderAccepted(2, dt);
  }

  /** A date alone, "YYYY-MM-DD", gives midnight: `T00:00:00`. */
  lemma DateOnlyIsMidnight(y: nat, m: nat, d: nat)
    requires ValidDateTime(DateTime(y, m, d, 0, 0, 0))
    ensures ParseDatetime(Pad4(y) + "-" + Pad2(m) + "-" + Pad2(d)) == Some(Iso(DateTime(y, m, d, 0, 0, 0)))
  {
    var dt := DateTime(y, m, d, 0, 0, 0);
    ValidInRanges(dt);
    RenderThree(Year, '-', Month, Day, dt);
    var text := Render(Patterns[4], dt);
    assert text == Pad4(y) + "-" + Pad2(m) + "-" + Pad2(d);
    RenderChars(Patterns[4], dt);
    assert ':' !in text;
    forall k | 0 <= k < 4 ensures Strptime(Patterns[k], text).None? {
      assert Patterns[k][7] == Sep(':');
      MissingSeparator(k, text, ':');
    }
    ParseRender(Patterns[4], dt, Default);
    assert Patterns[4][0] == Num(Year) && Patterns[4][2] == Num(Month) && Patterns[4][4] == Num(Day);
    FillExact(Patterns[4], dt);
    AcceptedFirst(text, 4, dt);
  }

  /**
   * A day that does not exist in its month ("2023-02-29") is rejected by every
   * format, so the text passes through unchanged.
   */
  lemma ImpossibleDatePassesThrough(y: nat, m: nat, d: nat)
    requires 1 <= y <= 9999 && 1 <= m <= 12 && DaysInMonth(y, m) < d <= 31
    ensures ParseDatetime(Pad4(y) + "-" + Pad2(m) + "-" + Pad2(d)) == Some(Pad4(y) + "-" + Pad2(m) + "-" + Pad2(d))
  {
    var dt := DateTime(y, m, d, 0, 0, 0);
    DashDateText(dt);
    var text := Render(Patterns[4], dt);
    DashDateRejectsOthers(text);
    ImpossibleDateRejected(dt);
    assert forall k :: 0 <= k < |Patterns| ==> Strptime(Patterns[k], text).None?;
  }

  /** The rendering of a "YYYY-MM-DD" date: no colon and no slash in it. */
  lemma DashDateText(dt: DateTime)
    requires InRanges(dt)
    ensures Render(Patterns[4], dt) == Pad4(dt.year) + "-" + Pad2(dt.month) + "-" + Pad2(dt.day)
    ensures ':' !in Render(Patterns[4], dt) && '/' !in Render(Patterns[4], dt)
  {
    RenderThree(Year, '-', Month, Day, dt);
    RenderChars(Patterns[4], dt);
  }

  /** Every format but "YYYY-MM-DD" demands a colon or a slash. */
  lemma DashDateRejectsOthers(text: string)
    requires ':' !in text && '/' !in text
    ensures forall k :: 0 <= k < |Patterns| && k != 4 ==> Strptime(Patterns[k], text).None?
  {
    forall k | 0 <= k < |Patterns| && k != 4 ensures Strptime(Patterns[k], text).None? {
      if k < 4 || k == 6 || k == 7 || k == 9 || k == 10 {
        assert Patterns[k][7] == Sep(':');
        MissingSeparator(k, text, ':');
      } else {
        assert Patterns[k][1] == Sep('/');
        MissingSeparator(k, text, '/');
      }
    }
  }

  /** "YYYY-MM-DD" scans a day its month does not have, which `datetime` refuses. */
  lemma ImpossibleDateRejected(dt: DateTime)
    requires InRanges(dt) && dt.hour == 0 && dt.minute == 0 && dt.second == 0 && !ValidDateTime(dt)
    ensures Strptime(Patterns[4], Render(Patterns[4], dt)).None?
  {
    RenderAccepted(4, dt);
  }

  /** The slash formats whose year comes first cannot take text with '/' at index 2. */
  lemma YearFirstRejects(k: nat, text: string)
    requires k == 1 || k == 3 || k == 5
    requires |text| > 2 && text[2] == '/'
    ensures Strptime(Patterns[k], text).None?
  {
    assert Patterns[k][0] == Num(Year);
    if |text| >= 4 {
      assert text[..4][2] == '/';
    }
    assert ScanField(Year, text).None?;
  }

  /** The dash and colon formats reject a slash-only date "A/B/YYYY". */
  lemma SlashDateRejectsOthers(text: string)
    requires |text| > 2 && text[2] == '/' && ':' !in text && '-' !in text
    ensures forall k :: 0 <= k < 8 ==> Strptime(Patterns[k], text).None?
  {
    forall k | 0 <= k < 8 ensures Strptime(Patterns[k], text).None? {
      if k == 0 || k == 2 || k == 4 {
        assert Patterns[k][1] == Sep('-');
        MissingSeparator(k, text, '-');
      } else if k == 1 || k == 3 || k == 5 {
        YearFirstRejects(k, text);
      } else {
        assert Patterns[k][7] == Sep(':');
        MissingSeparator(k, text, ':');
      }
    }
  }

  /**
   * Month-first formats are tried before day-first ones: "MM/DD/YYYY" is read
   * month first even when the day would also be a valid month.
   */
  lemma MonthFirstWins(y: nat, m: nat, d: nat)
    requires ValidDateTime(DateTime(y, m, d, 0, 0, 0))
    ensures ParseDatetime(Pad2(m) + "/" + Pad2(d) + "/" + Pad4(y)) == Some(Iso(DateTime(y, m, d, 0, 0, 0)))
  {
    var dt := DateTime(y, m, d, 0, 0, 0);
    ValidInRanges(dt);
    SlashDateText(Month, Day, Year, dt);
    var text := Render(Patterns[8], dt);
    SlashDateRejectsOthers(text);
    RenderAccepted(8, dt);
    AcceptedFirst(text, 8, dt);
  }

  /** A first number above 12 is no month: the month-first formats reject "DD/MM/YYYY". */
  lemma LargeDayIsNoMonth(text: string, d: nat)
    requires 12 < d <= 31 && |text| > 2 && text[..2] == Pad2(d) && text[2] == '/' && ':' !in text
    ensures forall j :: 6 <= j < 11 ==> Strptime(Patterns[j], text).None?
  {
    assert text[0] == DigitChar(d / 10) && text[1] == DigitChar(d % 10);
    assert ScanField(Month, text) == Some(Token(d / 10, 1));
    assert Patterns[8][0] == Num(Month) && Patterns[8][1] == Sep('/');
    assert Strptime(Patterns[8], text).None?;
    forall j | j in {6, 7, 9, 10} ensures Strptime(Patterns[j], text).None? {
      assert Patterns[j][7] == Sep(':');
      MissingSeparator(j, text, ':');
    }
  }

  /** A first number above 12 is no month, so "DD/MM/YYYY" falls to the day-first format. */
  lemma DayFirstFallback(y: nat, m: nat, d: nat)
    requires ValidDateTime(DateTime(y, m, d, 0, 0, 0)) && d > 12
    ensures ParseDatetime(Pad2(d) + "/" + Pad2(m) + "/" + Pad4(y)) == Some(Iso(DateTime(y, m, d, 0, 0, 0)))
  {
    var dt := DateTime(y, m, d, 0, 0, 0);
    ValidInRanges(dt);
    SlashDateText(Day, Month, Year, dt);
    var text := Render(Patterns[11], dt);
    SlashDateRejectsOthers(text);
    LargeDayIsNoMonth(text, d);
    RenderAccepted(11, dt);
    AcceptedFirst(text, 11, dt);
  }

  /** The rendering of a slash date "A/B/C": two digits, a slash, no colon and no dash. */
  lemma SlashDateText(a: Field, b: Field, c: Field, dt: DateTime)
    requires a != Year && InRanges(dt)
    ensures var text := Render([Num(a), Sep('/'), Num(b), Sep('/'), Num(c)], dt);
      && text == Pad(a, Get(dt, a)) + "/" + Pad(b, Get(dt, b)) + "/" + Pad(c, Get(dt, c))
      && |text| > 2 && text[..2] == Pad2(Get(dt, a)) && text[2] == '/'
      && ':' !in text && '-' !in text
  {
    var p := [Num(a), Sep('/'), Num(b), Sep('/'), Num(c)];
    RenderThree(a, '/', b, c, dt);
    var text := Render(p, dt);
    assert text[..2] == Pad2(Get(dt, a));
    NoForeignSeparator(p, dt, ':');
    NoForeignSeparator(p, dt, '-');
  }

  /** A character that is neither a digit nor a separator of the pattern is absent from its renderings. */
  lemma NoForeignSeparator(p: Pattern, dt: DateTime, c: char)
    requires InRanges(dt) && !IsDigit(c) && Sep(c) !in p
    ensures c !in Render(p, dt)
  {
    RenderChars(p, dt);
  }

  /** Re-parsing an output changes nothing: ISO text is accepted by no format. */
  lemma ParseDatetimeIdempotent(text: string)
    requires text != []
    ensures ParseDatetime(ParseDatetime(text).value) == ParseDatetime(text)
  {
    var r := ParseDatetime(text).value;
    if r != text {
      var k := MatchingPattern(text).value;
      var dt := Strptime(Patterns[k], text).value;
      ValidInRanges(dt);
      IsoRoundTrip(dt);
      assert r == Iso(dt);
      NoLetterSeparator();
      forall j | 0 <= j < |Patterns| ensures Strptime(Patterns[j], r).None? {
        ForeignCharRejects(j, r, 10);
      }
    }
  }

  /** The formats separate their fields only with '-', '/', ' ' and ':'. */
  lemma NoLetterSeparator()
    ensures forall j :: 0 <= j < |Patterns| ==> Sep('T') !in Patterns[j]
  {
    forall j | 0 <= j < |Patterns| ensures Sep('T') !in Patterns[j] {
      var p := Patterns[j];
      forall i | 0 <= i < |p| ensures p[i] != Sep('T') {
        assert p[i].Num? || p[i].c in {'-', '/', ' ', ':'};
      }
    }
  }

  // The concrete strings of the examples below, spelled out apart from `ParseDatetime`.
  // These lemmas model nothing of their own: they only let the examples verify cheaply.

  lemma Pad2Examples()
    ensures Pad2(0) == "00" && Pad2(1) == "01" && Pad2(2) == "02" && Pad2(3) == "03" && Pad2(4) == "04"
    ensures Pad2(8) == "08" && Pad2(15) == "15" && Pad2(29) == "29" && Pad2(30) == "30"
  {
  }

  lemma Pad4Examples()
    ensures Pad4(2023) == "2023" && Pad4(2024) == "2024"
  {
    assert Pad2(20) == "20" && Pad2(23) == "23" && Pad2(24) == "24";
    assert Pad4(2023) == Pad2(20) + Pad2(23);
    assert Pad4(2024) == Pad2(20) + Pad2(24);
  }

  lemma MinutesExampleText()
    ensures Pad4(2024) + "-" + Pad2(3) + "-" + Pad2(1) + " " + Pad2(8) + ":" + Pad2(30) == "2024-03-01 08:30"
    ensures Iso(DateTime(2024, 3, 1, 8, 30, 0)) == "2024-03-01T08:30:00"
  {
    Pad2Examples();
    Pad4Examples();
  }

  lemma MonthFirstExampleText()
    ensures Pad2(3) + "/" + Pad2(4) + "/" + Pad4(2024) == "03/04/2024"
    ensures Iso(DateTime(2024, 3, 4, 0, 0, 0)) == "2024-03-04T00:00:00"
  {
    Pad2Examples();
    Pad4Examples();
  }

  lemma DayFirstExampleText()
    ensures Pad2(15) + "/" + Pad2(3) + "/" + Pad4(2024) == "15/03/2024"
    ensures Iso(DateTime(2024, 3, 15, 0, 0, 0)) == "2024-03-15T00:00:00"
  {
    Pad2Examples();
    Pad4Examples();
  }

  lemma LeapDayExampleText()
    ensures Pad4(2023) + "-" + Pad2(2) + "-" + Pad2(29) == "2023-02-29"
    ensures Pad4(2024) + "-" + Pad2(2) + "-" + Pad2(29) == "2024-02-29"
    ensures Iso(DateTime(2024, 2, 29, 0, 0, 0)) == "2024-02-29T00:00:00"
  {
    Pad2Examples();
    Pad4Examples();
  }

  /** "2024-03-01 08:30" is read by the minutes format and gets zero seconds. */
  lemma MinutesExample()
    ensures ParseDatetime("2024-03-01 08:30") == Some("2024-03-01T08:30:00")
  {
    MinutesFormat(DateTime(2024, 3, 1, 8, 30, 0));
    MinutesExampleText();
  }

  /** "03/04/2024" is 4 March, not 3 April: month-first wins. */
  lemma MonthFirstExample()
    ensures ParseDatetime("03/04/2024") == Some("2024-03-04T00:00:00")
  {
    MonthFirstWins(2024, 3, 4);
    MonthFirstExampleText();
  }

  /** "15/03/2024" has no month 15, so it is read day first. */
  lemma DayFirstExample()
    ensures ParseDatetime("15/03/2024") == Some("2024-03-15T00:00:00")
  {
    DayFirstFallback(2024, 3, 15);
    DayFirstExampleText();
  }

  /** 2023 is no leap year: "2023-02-29" comes back unchanged. */
  lemma NoLeapDayExample()
    ensures ParseDatetime("2023-02-29") == Some("2023-02-29")
  {
    ImpossibleDatePassesThrough(2023, 2, 29);
    LeapDayExampleText();
  }

  /** 2024 is a leap year: "2024-02-29" is a date. */
  lemma LeapDayExample()
    ensures ParseDatetime("2024-02-29") == Some("2024-02-29T00:00:00")
  {
    DateOnlyIsMidnight(2024, 2, 29);
    LeapDayExampleText();
  }
}
