/** The calendar-date value type (`DateType`): text is read by trying a fixed,
    ordered list of strict day/month/year templates, ISO 8601 first, and values
    are always written back in the ISO 8601 calendar-date extended format
    YYYY-MM-DD (section 4.1.2.2 of ISO 8601:2004).

    A template reads text the way a non-lenient SimpleDateFormat does with
    `parse(String)`: it reads a prefix of the text and ignores whatever follows.
    Each numeric field is an optional run of spaces and tabs followed by a
    greedy run of one or more ASCII digits; the separators must match exactly;
    the resulting (year, month, day) must be a valid calendar date. */
module Dates {
  import opened Wrappers
  import opened Text
  import opened Calendar
  import opened Values

  datatype FieldOrder = YearMonthDay | DayMonthYear

  /** A day/month/year template: the order of the three numeric fields and the
      single character between them. */
  datatype Template = Template(order: FieldOrder, separator: char)

  /** The template's pattern in SimpleDateFormat notation. */
  function Pattern(t: Template): string {
    match t.order
    case YearMonthDay => "yyyy" + [t.separator] + "MM" + [t.separator] + "dd"
    case DayMonthYear => "dd" + [t.separator] + "MM" + [t.separator] + "yyyy"
  }

  /** The preferred template, yyyy-MM-dd. */
  const Iso: Template := Template(YearMonthDay, '-')

  /** The templates in the order they are tried. */
  const Templates: seq<Template> := [
    Iso,
    Template(YearMonthDay, '/'),
    Template(YearMonthDay, '.'),
    Template(YearMonthDay, ' '),
    Template(DayMonthYear, '-'),
    Template(DayMonthYear, '/'),
    Template(DayMonthYear, '.'),
    Template(DayMonthYear, ' ')
  ]

  // ---------------------------------------------------------------------------
  // Reading

  /** One numeric field at the start of `s`: its digits and the number of
      characters it occupies, leading blanks included. */
  function ReadToken(s: string): (r: Option<(string, nat)>)
    ensures r.Some? ==> 0 < r.value.1 <= |s|
    ensures r.Some? ==> |r.value.0| > 0 && AllDigits(r.value.0)
  {
    var b := BlankRun(s);
    var n := DigitRun(s[b..]);
    if n == 0 then None else Some((s[b..][..n], b + n))
  }

  /** A numeric field followed by `sep` at the start of `s`: its digits and
      the text after the separator. */
  function ReadField(s: string, sep: char): (r: Option<(string, string)>)
    ensures r.Some? ==> |r.value.0| > 0 && AllDigits(r.value.0)
    ensures r.Some? ==> |r.value.1| < |s|
  {
    match ReadToken(s)
    case None => None
    case Some((x, k)) => if k < |s| && s[k] == sep then Some((x, s[k + 1..])) else None
  }

  /** The digits of three numeric fields separated by `sep`, read from the
      start of `s`, in the order they appear. */
  function ReadFields(s: string, sep: char): (r: Option<(string, string, string)>)
    ensures r.Some? ==> AllDigits(r.value.0) && AllDigits(r.value.1) && AllDigits(r.value.2)
  {
    match ReadField(s, sep)
    case None => None
    case Some((x, s2)) =>
      match ReadField(s2, sep)
      case None => None
      case Some((y, s3)) =>
        match ReadToken(s3)
        case None => None
        case Some((z, _)) => Some((x, y, z))
  }

  /** The largest Java `int`. */
  const IntMax: int := 0x7FFF_FFFF

  /** Java's narrowing of a `long` to an `int`: the low 32 bits, read as a
      signed number. */
  function IntOfLong(n: int): (r: int)
    ensures -IntMax - 1 <= r <= IntMax
    ensures (r - n) % 0x1_0000_0000 == 0
    ensures -IntMax - 1 <= n <= IntMax ==> r == n
  {
    (n + 0x8000_0000) % 0x1_0000_0000 - 0x8000_0000
  }

  /** The value a calendar field receives from a numeric field. The digits are
      parsed as a `long` when they fit in one and as a `double` otherwise, and
      the field is set to that number's `intValue()`: the low 32 bits of a
      `long`, and `IntMax` for a `double` beyond the `int` range. */
  function FieldValue(digits: string): (v: int)
    requires AllDigits(digits)
    ensures -IntMax - 1 <= v <= IntMax
    ensures NumberOf(digits) <= IntMax ==> v == NumberOf(digits)
    ensures NumberOf(digits) < 0x8000_0000_0000_0000 ==> (v - NumberOf(digits)) % 0x1_0000_0000 == 0
  {
    var n := NumberOf(digits);
    if n < 0x8000_0000_0000_0000 then IntOfLong(n) else IntMax
  }

  /** The date the three fields denote under a field order. */
  function Arrange(order: FieldOrder, fields: (int, int, int)): Date {
    match order
    case YearMonthDay => Date(fields.0, fields.1, fields.2)
    case DayMonthYear => Date(fields.2, fields.1, fields.0)
  }

  /** Strict reading of `s` with one template: None unless the fields are
      present and form a valid calendar date. */
  function ParseWith(t: Template, s: string): (r: Option<Date>)
    ensures r.Some? ==> Valid(r.value)
    ensures r.Some? ==> ReadFields(s, t.separator).Some?
  {
    match ReadFields(s, t.separator)
    case None => None
    case Some((x, y, z)) =>
      var d := Arrange(t.order, (FieldValue(x), FieldValue(y), FieldValue(z)));
      if Valid(d) then Some(d) else None
  }

  /** What each template of `ts` reads from `s`, in order. */
  function Attempts(ts: seq<Template>, s: string): (r: seq<Option<Date>>)
    ensures |r| == |ts|
    ensures forall i :: 0 <= i < |ts| ==> r[i] == ParseWith(ts[i], s)
  {
    seq(|ts|, i requires 0 <= i < |ts| => ParseWith(ts[i], s))
  }

  /** The first present entry of `xs` from position `from` on, with its position. */
  function FirstSome(xs: seq<Option<Date>>, from: nat): (r: Option<(nat, Date)>)
    requires from <= |xs|
    ensures r.Some? ==> from <= r.value.0 < |xs| && xs[r.value.0] == Some(r.value.1)
    ensures r.Some? ==> forall j :: from <= j < r.value.0 ==> xs[j].None?
    ensures r.None? <==> forall j :: from <= j < |xs| ==> xs[j].None?
    decreases |xs| - from
  {
    if from == |xs| then None
    else
      match xs[from]
      case Some(x) => Some((from, x))
      case None => FirstSome(xs, from + 1)
  }

  // ---------------------------------------------------------------------------
  // The pattern list quoted in the failure message

  function Quote(t: Template): (q: string)
    ensures |q| > 0
  {
    "'" + Pattern(t) + "'"
  }

  /** The quoted patterns of `ts`, in order, separated by ", ". */
  function QuotedList(ts: seq<Template>): (r: string)
    ensures |ts| > 0 ==> |r| > 0
  {
    if |ts| == 0 then ""
    else if |ts| == 1 then Quote(ts[0])
    else Quote(ts[0]) + ", " + QuotedList(ts[1..])
  }

  lemma {:induction false} QuotedListSnoc(ts: seq<Template>, t: Template)
    requires |ts| > 0
    ensures QuotedList(ts + [t]) == QuotedList(ts) + ", " + Quote(t)
  {
    if |ts| > 1 {
      assert (ts + [t])[1..] == ts[1..] + [t];
      QuotedListSnoc(ts[1..], t);
    }
  }

  /** The constructor's accumulation of the pattern list: the first pattern
      alone, every later one after ", ". */
  method DescribePatterns(ts: seq<Template>) returns (patterns: string)
    ensures patterns == QuotedList(ts)
  {
    patterns := "";
    var i := 0;
    while i < |ts|
      invariant 0 <= i <= |ts|
      invariant patterns == QuotedList(ts[..i])
      invariant patterns == "" <==> i == 0
    {
      if patterns == "" {
        assert ts[..i + 1] == [ts[i]];
        patterns := Quote(ts[i]);
      } else {
        assert ts[..i + 1] == ts[..i] + [ts[i]];
        QuotedListSnoc(ts[..i], ts[i]);
        patterns := patterns + ", " + Quote(ts[i]);
      }
      i := i + 1;
    }
    assert ts[..i] == ts;
  }

  /** The message of the error raised when no template reads `s`. */
  function FailureMessage(s: string): string {
    "Cannot parse date from string value '" + s + "'. Expected format is one of " + QuotedList(Templates)
  }

  // ---------------------------------------------------------------------------
  // valueOf, toString, compare

  /** The date value holding `d`. */
  function DateValue(d: Date): (v: Value)
    ensures v.vt == DateType && !IsNull(v) && !IsSequence(v)
  {
    Scalar(DateType, Some(DateP(d)))
  }

  /** `valueOf(String)`: a null string gives the null date; otherwise the date
      read by the first template that accepts the text, or a conversion error
      naming the text and every accepted pattern. */
  function ValueOfString(s: Option<string>): (r: Result<Value, Error>)
    ensures s.None? ==> r == Ok(NullValue(DateType))
    ensures s.Some? ==> (r.Ok? <==> exists i :: 0 <= i < |Templates| && ParseWith(Templates[i], s.value).Some?)
    ensures s.Some? && r.Ok? ==>
      exists i :: 0 <= i < |Templates|
        && ParseWith(Templates[i], s.value).Some?
        && r == Ok(DateValue(ParseWith(Templates[i], s.value).value))
        && forall j :: 0 <= j < i ==> ParseWith(Templates[j], s.value).None?
    ensures s.Some? && r.Err? ==> r.error == ValueConversion(FailureMessage(s.value))
  {
    match s
    case None => Ok(NullValue(DateType))
    case Some(text) =>
      var xs := Attempts(Templates, text);
      match FirstSome(xs, 0)
      case Some((i, d)) =>
        assert ParseWith(Templates[i], text) == xs[i] == Some(d);
        Ok(DateValue(d))
      case None => Err(ValueConversion(FailureMessage(text)))
  }

  /** The Java objects `valueOf(Object)` distinguishes. */
  datatype JavaObject =
    | NullObject
    | MagmaDateObject(date: Date)
    | UtilDateObject(instant: Instant)
    | DateSubclassObject(instant: Instant)
    | CalendarObject(instant: Instant)
    | StringObject(text: string)
    | OtherObject(className: string)

  /** `valueOf(Object)`: null gives the null date, every date-like object its
      calendar date, a string is read as text, and any other class is refused. */
  function ValueOfObject(o: JavaObject): (r: Result<Value, Error>)
    ensures o.NullObject? ==> r == Ok(NullValue(DateType))
    ensures o.MagmaDateObject? ==> r == Ok(DateValue(o.date))
    ensures (o.UtilDateObject? || o.DateSubclassObject? || o.CalendarObject?) ==> r == Ok(DateValue(o.instant.date))
    ensures o.StringObject? ==> r == ValueOfString(Some(o.text))
    ensures r.Err? <==> (o.OtherObject? || (o.StringObject? && ValueOfString(Some(o.text)).Err?))
    ensures o.OtherObject? ==> r.error.IllegalArgument?
  {
    match o
    case NullObject => Ok(NullValue(DateType))
    case MagmaDateObject(d) => Ok(DateValue(d))
    case UtilDateObject(t) => Ok(DateValue(t.date))
    case DateSubclassObject(t) => Ok(DateValue(t.date))
    case CalendarObject(t) => Ok(DateValue(t.date))
    case StringObject(text) => ValueOfString(Some(text))
    case OtherObject(name) =>
      Err(IllegalArgument("Cannot construct DateType from type class " + name + "."))
  }

  /** The Java classes `acceptsJavaClass` is asked about. */
  datatype JavaClass = MagmaDateClass | UtilDateClass | SqlDateClass | SqlTimestampClass | CalendarClass | StringClass | OtherClass(name: string)

  /** Only the calendar-date class is accepted as a native representation. */
  predicate AcceptsJavaClass(c: JavaClass) {
    c == MagmaDateClass
  }

  /** The plain, SQL and calendar date classes are refused, so that they map
      to the date-time type without loss of the time of day. */
  lemma AcceptedClasses()
    ensures AcceptsJavaClass(MagmaDateClass)
    ensures !AcceptsJavaClass(UtilDateClass) && !AcceptsJavaClass(SqlDateClass)
    ensures !AcceptsJavaClass(SqlTimestampClass) && !AcceptsJavaClass(CalendarClass)
    ensures !AcceptsJavaClass(StringClass) && forall name :: !AcceptsJavaClass(OtherClass(name))
  {
  }

  /** The ISO 8601 rendering of a date: the year zero-padded to at least four
      digits, month and day to two, joined by '-'. */
  function Render(d: Date): (s: string)
    requires Valid(d)
  {
    ShowPadded(d.year, 4) + "-" + ShowPadded(d.month, 2) + "-" + ShowPadded(d.day, 2)
  }

  /** `toString(Object)`: a null payload renders as null, a date in ISO 8601. */
  function ToText(payload: Option<Date>): (r: Option<string>)
    requires payload.Some? ==> Valid(payload.value)
    ensures r.None? <==> payload.None?
    ensures payload.Some? ==> ParseWith(Iso, r.value) == Some(payload.value)
    ensures payload.Some? ==> |r.value| >= 10
  {
    match payload
    case None => None
    case Some(d) => RoundTripIso(d); RenderShape(d); Some(Render(d))
  }

  /** A value's payload cast to a calendar date: none for a null scalar or a
      null sequence, a class-cast failure for any other payload, including the
      element list of a sequence. */
  function CastToDate(v: Value): (r: Result<Option<Date>, Error>)
    ensures r == Ok(None) <==> IsNull(v)
    ensures r.Ok? && r.value.Some? <==> (v.Scalar? && v.payload.Some? && v.payload.value.DateP?)
    ensures r.Ok? && r.value.Some? ==> r.value.value == v.payload.value.date
    ensures r.Err? ==> r.error == ClassCast
  {
    match v
    case Scalar(_, None) => Ok(None)
    case Scalar(_, Some(DateP(d))) => Ok(Some(d))
    case Scalar(_, Some(_)) => Err(ClassCast)
    case Sequence(_, _) => Err(ClassCast)
    case NullSeq(_) => Ok(None)
  }

  /** `compare`: the chronological order of the two dates. Both payloads are
      cast before the comparison, the first then the second, so a payload
      that is not a date fails first; a null date on either side is a null
      reference. */
  function CompareValues(a: Value, b: Value): (r: Result<int, Error>)
    ensures r.Ok? <==> CastToDate(a).Ok? && CastToDate(a).value.Some? && CastToDate(b).Ok? && CastToDate(b).value.Some?
    ensures r.Ok? ==> (r.value < 0 <==> Before(a.payload.value.date, b.payload.value.date))
    ensures r.Ok? ==> (r.value == 0 <==> a.payload == b.payload)
    ensures r.Ok? ==> (r.value > 0 <==> Before(b.payload.value.date, a.payload.value.date))
    ensures CastToDate(a).Err? || CastToDate(b).Err? ==> r == Err(ClassCast)
    ensures CastToDate(a).Ok? && CastToDate(b).Ok? && (IsNull(a) || IsNull(b)) ==> r == Err(NullReference)
  {
    var first :- CastToDate(a);
    var second :- CastToDate(b);
    if first.None? || second.None? then Err(NullReference)
    else Ok(Calendar.Compare(first.value, second.value))
  }

  // ---------------------------------------------------------------------------
  // Reading characterised by the layout of the text

  lemma ReadTokenAt(s: string, w: string, a: string, t: string)
    requires BlankRun(s) == |w| && s[|w|..] == t && DigitRun(t) == |a| && t[..|a|] == a && |a| > 0
    ensures ReadToken(s) == Some((a, |w| + |a|))
  {
  }

  lemma TokenPieces(w: string, a: string, rest: string)
    requires AllBlank(w) && |a| > 0 && AllDigits(a)
    requires |rest| > 0 ==> !IsDigit(rest[0])
    ensures BlankRun(w + a + rest) == |w|
    ensures (w + a + rest)[|w|..] == a + rest
    ensures DigitRun(a + rest) == |a|
    ensures (a + rest)[..|a|] == a
  {
    var t := a + rest;
    assert w + a + rest == w + t;
    assert !IsBlank(t[0]);
    BlankRunStopsAt(w, t);
    DigitRunStopsAt(a, rest);
  }

  /** Reading a field from blanks, digits and a remainder that does not start
      with a digit yields exactly those digits. */
  lemma ReadTokenOf(w: string, a: string, rest: string)
    requires AllBlank(w) && |a| > 0 && AllDigits(a)
    requires |rest| > 0 ==> !IsDigit(rest[0])
    ensures ReadToken(w + a + rest) == Some((a, |w| + |a|))
  {
    TokenPieces(w, a, rest);
    ReadTokenAt(w + a + rest, w, a, a + rest);
  }

  /** Where the separator and the remainder sit in `u v sep t`. */
  lemma SeparatorAt(u: string, v: string, sep: char, t: string)
    ensures (u + v + ([sep] + t))[|u| + |v|] == sep
    ensures (u + v + ([sep] + t))[|u| + |v| + 1..] == t
  {
    var s := u + v + ([sep] + t);
    assert s == (u + v) + ([sep] + t);
  }

  lemma ReadFieldAt(s: string, sep: char, x: string, k: nat)
    requires ReadToken(s) == Some((x, k)) && k < |s| && s[k] == sep
    ensures ReadField(s, sep) == Some((x, s[k + 1..]))
  {
  }

  lemma ReadFieldsAt(s: string, sep: char, x: string, s2: string, y: string, s3: string, z: string, k3: nat)
    requires ReadField(s, sep) == Some((x, s2))
    requires ReadField(s2, sep) == Some((y, s3))
    requires ReadToken(s3) == Some((z, k3))
    ensures ReadFields(s, sep) == Some((x, y, z))
  {
  }

  /** A field followed by the separator, in the form `w a sep t`. */
  lemma ReadFieldOf(w: string, a: string, sep: char, t: string)
    requires AllBlank(w) && |a| > 0 && AllDigits(a) && !IsDigit(sep)
    ensures ReadField(w + a + ([sep] + t), sep) == Some((a, t))
  {
    ReadTokenOf(w, a, [sep] + t);
    SeparatorAt(w, a, sep, t);
    ReadFieldAt(w + a + ([sep] + t), sep, a, |w| + |a|);
  }

  /** The text `w1 a sep w2 b sep w3 c rest`, three numeric fields with
      optional leading blanks, separated by `sep`, then anything that does not
      start with a digit. */
  function Layout(w1: string, a: string, w2: string, b: string, w3: string, c: string, rest: string, sep: char): string {
    w1 + a + ([sep] + (w2 + b + ([sep] + (w3 + c + rest))))
  }

  predicate WellLaid(w1: string, a: string, w2: string, b: string, w3: string, c: string, rest: string, sep: char) {
    && !IsDigit(sep)
    && AllBlank(w1) && AllBlank(w2) && AllBlank(w3)
    && |a| > 0 && AllDigits(a)
    && |b| > 0 && AllDigits(b)
    && |c| > 0 && AllDigits(c)
    && (|rest| > 0 ==> !IsDigit(rest[0]))
  }

  /** Where each field of a well-laid text is read from. */
  lemma ReadThreeFields(w1: string, a: string, w2: string, b: string, w3: string, c: string, rest: string, sep: char)
    requires WellLaid(w1, a, w2, b, w3, c, rest, sep)
    ensures ReadField(Layout(w1, a, w2, b, w3, c, rest, sep), sep) == Some((a, w2 + b + ([sep] + (w3 + c + rest))))
    ensures ReadField(w2 + b + ([sep] + (w3 + c + rest)), sep) == Some((b, w3 + c + rest))
    ensures ReadToken(w3 + c + rest) == Some((c, |w3| + |c|))
  {
    ReadFieldOf(w1, a, sep, w2 + b + ([sep] + (w3 + c + rest)));
    ReadFieldOf(w2, b, sep, w3 + c + rest);
    ReadTokenOf(w3, c, rest);
  }

  /** Every well-laid text yields the three numbers it spells, whatever follows them. */
  lemma ReadFieldsOfLayout(w1: string, a: string, w2: string, b: string, w3: string, c: string, rest: string, sep: char)
    requires WellLaid(w1, a, w2, b, w3, c, rest, sep)
    ensures ReadFields(Layout(w1, a, w2, b, w3, c, rest, sep), sep) == Some((a, b, c))
  {
    ReadThreeFields(w1, a, w2, b, w3, c, rest, sep);
    ReadFieldsAt(Layout(w1, a, w2, b, w3, c, rest, sep), sep, a, w2 + b + ([sep] + (w3 + c + rest)), b, w3 + c + rest, c, |w3| + |c|);
  }

  /** A token read from `s` sits after a run of blanks and before text that
      does not start with a digit. */
  lemma TokenLayout(s: string) returns (w: string, rest: string)
    requires ReadToken(s).Some?
    ensures |rest| > 0 ==> !IsDigit(rest[0])
    ensures AllBlank(w)
    ensures s == w + ReadToken(s).value.0 + rest
    ensures ReadToken(s).value.1 == |w| + |ReadToken(s).value.0|
  {
    var b := BlankRun(s);
    var n := DigitRun(s[b..]);
    w, rest := s[..b], s[b + n..];
    assert s == s[..b] + s[b..][..n] + s[b + n..];
  }

  /** A field read from `s` sits after a run of blanks and right before the separator. */
  lemma FieldLayout(s: string, sep: char) returns (w: string)
    requires ReadField(s, sep).Some?
    ensures AllBlank(w)
    ensures s == w + ReadField(s, sep).value.0 + ([sep] + ReadField(s, sep).value.1)
  {
    var rest;
    w, rest := TokenLayout(s);
    var k := ReadToken(s).value.1;
    assert rest == s[k..];
    assert s[k..] == [sep] + s[k + 1..];
  }

  /** Conversely, every text a template reads is well laid: reading succeeds
      exactly on the texts of `Layout`. */
  lemma ReadFieldsLayout(s: string, sep: char)
    returns (w1: string, a: string, w2: string, b: string, w3: string, c: string, rest: string)
    requires !IsDigit(sep)
    requires ReadFields(s, sep).Some?
    ensures WellLaid(w1, a, w2, b, w3, c, rest, sep)
    ensures s == Layout(w1, a, w2, b, w3, c, rest, sep)
    ensures ReadFields(s, sep) == Some((a, b, c))
  {
    var t2, t3;
    a, t2 := ReadField(s, sep).value.0, ReadField(s, sep).value.1;
    w1 := FieldLayout(s, sep);
    b, t3 := ReadField(t2, sep).value.0, ReadField(t2, sep).value.1;
    w2 := FieldLayout(t2, sep);
    c := ReadToken(t3).value.0;
    w3, rest := TokenLayout(t3);
  }

  // ---------------------------------------------------------------------------
  // Round trip and the documented examples

  /** The ISO rendering is laid out as three digit fields separated by '-'. */
  lemma RenderFields(d: Date)
    requires Valid(d)
    ensures ReadFields(Render(d), '-') == Some((ShowPadded(d.year, 4), ShowPadded(d.month, 2), ShowPadded(d.day, 2)))
  {
    var y, m, dd := ShowPadded(d.year, 4), ShowPadded(d.month, 2), ShowPadded(d.day, 2);
    assert Render(d) == Layout("", y, "", m, "", dd, "", '-');
    ReadFieldsOfLayout("", y, "", m, "", dd, "", '-');
  }

  /** The rendering is the year in at least four digits, '-', the month in
      two digits, '-', and the day in two digits; each digit group spells its
      field. A date of a four-digit year renders as exactly ten characters,
      YYYY-MM-DD. */
  lemma RenderShape(d: Date)
    requires Valid(d)
    ensures var r := Render(d); var n := |r|;
      && n >= 10
      && r[n - 6] == '-' && r[n - 3] == '-'
      && AllDigits(r[..n - 6]) && NumberOf(r[..n - 6]) == d.year
      && AllDigits(r[n - 5..n - 3]) && NumberOf(r[n - 5..n - 3]) == d.month
      && AllDigits(r[n - 2..]) && NumberOf(r[n - 2..]) == d.day
    ensures d.year < 10000 ==> |Render(d)| == 10
  {
    SmallPowers();
    var y, m, dd := ShowPadded(d.year, 4), ShowPadded(d.month, 2), ShowPadded(d.day, 2);
    ShowPaddedWidth(d.month, 2);
    ShowPaddedWidth(d.day, 2);
    NumberOfShowPadded(d.year, 4);
    NumberOfShowPadded(d.month, 2);
    NumberOfShowPadded(d.day, 2);
    assert Render(d) == y + "-" + m + "-" + dd;
    JoinedPieces(y, m, dd);
    if d.year < 10000 {
      ShowPaddedWidth(d.year, 4);
    }
  }

  lemma SmallPowers()
    ensures Pow10(2) == 100 && Pow10(4) == 10000
  {
    assert Pow10(1) == 10;
    assert Pow10(3) == 1000;
  }

  /** Where the three pieces of `y-m-d` sit, for two-character `m` and `d`. */
  lemma JoinedPieces(y: string, m: string, d: string)
    requires |m| == 2 && |d| == 2
    ensures var r := y + "-" + m + "-" + d; var n := |r|;
      && n == |y| + 6
      && r[n - 6] == '-' && r[n - 3] == '-'
      && r[..n - 6] == y && r[n - 5..n - 3] == m && r[n - 2..] == d
  {
  }

  /** The ISO rendering of a valid date is read back as that date by the ISO template. */
  lemma RoundTripIso(d: Date)
    requires Valid(d)
    ensures ParseWith(Iso, Render(d)) == Some(d)
  {
    RenderFields(d);
    NumberOfShowPadded(d.year, 4);
    NumberOfShowPadded(d.month, 2);
    NumberOfShowPadded(d.day, 2);
  }

  /** Reading the ISO rendering of a date gives back the same date value. */
  lemma ValueOfRendering(d: Date)
    requires Valid(d)
    ensures ValueOfString(Some(Render(d))) == Ok(DateValue(d))
  {
    RoundTripIso(d);
  }

  /** Writing then reading is the identity on date values, whichever template
      read the original text. */
  lemma ValueOfToText(s: string)
    requires ValueOfString(Some(s)).Ok?
    ensures ValueOfString(ToText(Some(ValueOfString(Some(s)).value.payload.value.date))) == ValueOfString(Some(s))
  {
    var d := ValueOfString(Some(s)).value.payload.value.date;
    ValueOfRendering(d);
  }

  /** Once a template reads a text, appending anything that does not extend
      the last field with more digits leaves the reading unchanged. */
  lemma ParseIgnoresTrailingText(t: Template, s: string, more: string)
    requires !IsDigit(t.separator)
    requires ReadFields(s, t.separator).Some?
    requires |more| > 0 ==> !IsDigit(more[0])
    ensures ParseWith(t, s + more) == ParseWith(t, s)
  {
    var w1, a, w2, b, w3, c, rest := ReadFieldsLayout(s, t.separator);
    LayoutAppend(w1, a, w2, b, w3, c, rest, more, t.separator);
    ReadFieldsOfLayout(w1, a, w2, b, w3, c, rest + more, t.separator);
    assert ReadFields(s + more, t.separator) == ReadFields(s, t.separator);
  }

  /** Text appended to a well-laid text that does not continue its last field
      becomes part of the remainder. */
  lemma LayoutAppend(w1: string, a: string, w2: string, b: string, w3: string, c: string, rest: string, more: string, sep: char)
    requires WellLaid(w1, a, w2, b, w3, c, rest, sep)
    requires |more| > 0 ==> !IsDigit(more[0])
    ensures Layout(w1, a, w2, b, w3, c, rest, sep) + more == Layout(w1, a, w2, b, w3, c, rest + more, sep)
    ensures WellLaid(w1, a, w2, b, w3, c, rest + more, sep)
  {
    if |rest| > 0 {
      assert (rest + more)[0] == rest[0];
    }
  }

  // ---------------------------------------------------------------------------
  // Worked examples

  /** A text whose first field is followed by a character other than the
      separator is not read by that separator's templates. */
  lemma WrongSeparator(a: string, other: char, more: string, sep: char)
    requires |a| > 0 && AllDigits(a) && !IsDigit(other) && other != sep
    ensures ReadFields(a + [other] + more, sep).None?
  {
    assert a + [other] + more == "" + a + ([other] + more);
    ReadTokenOf("", a, [other] + more);
    assert (a + [other] + more)[|a|] == other;
  }

  lemma NumberExample()
    ensures NumberOf("2020") == 2020 && NumberOf("03") == 3 && NumberOf("05") == 5 && NumberOf("12") == 12
  {
    assert "2020"[..3] == "202" && "202"[..2] == "20" && "20"[..1] == "2";
    assert "03"[..1] == "0" && "05"[..1] == "0" && "12"[..1] == "1";
  }

  /** The ISO text 2020-03-05 is read by the first template as 5 March 2020. */
  lemma IsoTextExample()
    ensures ValueOfString(Some("2020" + "-" + "03" + "-" + "05")) == Ok(DateValue(Date(2020, 3, 5)))
  {
    NumberExample();
    ValueOfFields("2020", "03", "05", '-');
  }

  /** The date a template reads from three digit fields joined by `sep`:
      none unless the template uses that separator and its field order gives
      a valid date. */
  function FieldsReading(t: Template, sep: char, x: int, y: int, z: int): Option<Date> {
    if t.separator != sep then None
    else
      var d := Arrange(t.order, (x, y, z));
      if Valid(d) then Some(d) else None
  }

  lemma ReadJoinedFields(a: string, b: string, c: string, sep: char)
    requires |a| > 0 && AllDigits(a) && |b| > 0 && AllDigits(b) && |c| > 0 && AllDigits(c)
    requires !IsDigit(sep)
    ensures ReadFields(a + [sep] + b + [sep] + c, sep) == Some((a, b, c))
  {
    assert a + [sep] + b + [sep] + c == Layout("", a, "", b, "", c, "", sep);
    ReadFieldsOfLayout("", a, "", b, "", c, "", sep);
  }

  lemma ParseWithOwnSeparator(t: Template, a: string, b: string, c: string)
    requires |a| > 0 && AllDigits(a) && |b| > 0 && AllDigits(b) && |c| > 0 && AllDigits(c)
    requires !IsDigit(t.separator)
    ensures ParseWith(t, a + [t.separator] + b + [t.separator] + c)
      == FieldsReading(t, t.separator, FieldValue(a), FieldValue(b), FieldValue(c))
  {
    ReadJoinedFields(a, b, c, t.separator);
  }

  lemma ParseWithOtherSeparator(t: Template, a: string, b: string, c: string, sep: char)
    requires |a| > 0 && AllDigits(a) && !IsDigit(sep) && t.separator != sep
    ensures ParseWith(t, a + [sep] + b + [sep] + c).None?
  {
    assert a + [sep] + b + [sep] + c == a + [sep] + (b + [sep] + c);
    WrongSeparator(a, sep, b + [sep] + c, t.separator);
  }

  lemma ParseWithFields(t: Template, a: string, b: string, c: string, sep: char)
    requires |a| > 0 && AllDigits(a) && |b| > 0 && AllDigits(b) && |c| > 0 && AllDigits(c)
    requires !IsDigit(sep) && !IsDigit(t.separator)
    ensures ParseWith(t, a + [sep] + b + [sep] + c) == FieldsReading(t, sep, FieldValue(a), FieldValue(b), FieldValue(c))
  {
    if t.separator == sep {
      ParseWithOwnSeparator(t, a, b, c);
    } else {
      ParseWithOtherSeparator(t, a, b, c, sep);
    }
  }

  lemma AttemptsOfFields(a: string, b: string, c: string, sep: char)
    requires |a| > 0 && AllDigits(a) && |b| > 0 && AllDigits(b) && |c| > 0 && AllDigits(c)
    requires !IsDigit(sep)
    ensures forall i :: 0 <= i < |Templates| ==>
      Attempts(Templates, a + [sep] + b + [sep] + c)[i] == FieldsReading(Templates[i], sep, FieldValue(a), FieldValue(b), FieldValue(c))
  {
    forall i | 0 <= i < |Templates|
      ensures ParseWith(Templates[i], a + [sep] + b + [sep] + c) == FieldsReading(Templates[i], sep, FieldValue(a), FieldValue(b), FieldValue(c))
    {
      ParseWithFields(Templates[i], a, b, c, sep);
    }
  }

  lemma FirstSomeNone(xs: seq<Option<Date>>)
    requires forall i :: 0 <= i < |xs| ==> xs[i].None?
    ensures FirstSome(xs, 0).None?
  {
  }

  /** The first present entry, when the entries before position `k` are absent. */
  lemma FirstSomeAt(xs: seq<Option<Date>>, k: nat)
    requires k < |xs| && xs[k].Some?
    requires forall j :: 0 <= j < k ==> xs[j].None?
    ensures FirstSome(xs, 0) == Some((k, xs[k].value))
  {
  }

  /** The templates come in pairs sharing a separator: the year-first one at
      position k and the day-first one at k + 4. */
  lemma TemplatePairs(k: nat)
    requires k < 4
    ensures Templates[k].order == YearMonthDay && Templates[k + 4].order == DayMonthYear
    ensures Templates[k + 4].separator == Templates[k].separator
    ensures forall i :: 0 <= i < |Templates| && i != k && i != k + 4 ==> Templates[i].separator != Templates[k].separator
  {
  }

  /** The entries `FieldsReading` gives for the separator of the year-first
      template at `k`: only positions k and k + 4 can read anything. */
  lemma FieldsReadingAt(xs: seq<Option<Date>>, k: nat, x: int, y: int, z: int)
    requires k < 4
    requires |xs| == |Templates|
    requires forall i :: 0 <= i < |Templates| ==> xs[i] == FieldsReading(Templates[i], Templates[k].separator, x, y, z)
    ensures xs[k] == (if Valid(Date(x, y, z)) then Some(Date(x, y, z)) else None)
    ensures xs[k + 4] == (if Valid(Date(z, y, x)) then Some(Date(z, y, x)) else None)
    ensures forall i :: 0 <= i < |xs| && i != k && i != k + 4 ==> xs[i].None?
  {
    TemplatePairs(k);
  }

  /** Which template first reads three fields joined by the separator of the
      year-first template at `k`, given what each template reads. */
  lemma FirstFieldsReading(xs: seq<Option<Date>>, k: nat, x: int, y: int, z: int)
    requires k < 4 && |xs| == |Templates|
    requires xs[k] == (if Valid(Date(x, y, z)) then Some(Date(x, y, z)) else None)
    requires xs[k + 4] == (if Valid(Date(z, y, x)) then Some(Date(z, y, x)) else None)
    requires forall i :: 0 <= i < |xs| && i != k && i != k + 4 ==> xs[i].None?
    ensures FirstSome(xs, 0) ==
      if Valid(Date(x, y, z)) then Some((k, Date(x, y, z)))
      else if Valid(Date(z, y, x)) then Some((k + 4, Date(z, y, x)))
      else None
  {
    if Valid(Date(x, y, z)) {
      FirstSomeAt(xs, k);
    } else if Valid(Date(z, y, x)) {
      FirstSomeAt(xs, k + 4);
    } else {
      FirstSomeNone(xs);
    }
  }

  /** What the templates read from three digit fields joined by the
      separator of the year-first template at `k`. */
  lemma AttemptsAt(a: string, b: string, c: string, k: nat, sep: char)
    requires |a| > 0 && AllDigits(a) && |b| > 0 && AllDigits(b) && |c| > 0 && AllDigits(c)
    requires k < 4 && Templates[k].separator == sep
    ensures var xs, x, y, z := Attempts(Templates, a + [sep] + b + [sep] + c), FieldValue(a), FieldValue(b), FieldValue(c);
      && |xs| == |Templates|
      && xs[k] == (if Valid(Date(x, y, z)) then Some(Date(x, y, z)) else None)
      && xs[k + 4] == (if Valid(Date(z, y, x)) then Some(Date(z, y, x)) else None)
      && forall i :: 0 <= i < |xs| && i != k && i != k + 4 ==> xs[i].None?
  {
    AttemptsOfFields(a, b, c, sep);
    FieldsReadingAt(Attempts(Templates, a + [sep] + b + [sep] + c), k, FieldValue(a), FieldValue(b), FieldValue(c));
  }

  /** For three digit fields joined by one of the accepted separators, the
      year-first reading wins when it is a valid date; otherwise the day-first
      reading is taken when valid; otherwise the text is refused. */
  lemma ValueOfFields(a: string, b: string, c: string, sep: char)
    requires |a| > 0 && AllDigits(a) && |b| > 0 && AllDigits(b) && |c| > 0 && AllDigits(c)
    requires sep == '-' || sep == '/' || sep == '.' || sep == ' '
    ensures var ymd, dmy := Date(FieldValue(a), FieldValue(b), FieldValue(c)), Date(FieldValue(c), FieldValue(b), FieldValue(a));
      ValueOfString(Some(a + [sep] + b + [sep] + c)) ==
        if Valid(ymd) then Ok(DateValue(ymd))
        else if Valid(dmy) then Ok(DateValue(dmy))
        else Err(ValueConversion(FailureMessage(a + [sep] + b + [sep] + c)))
  {
    var k := if sep == '-' then 0 else if sep == '/' then 1 else if sep == '.' then 2 else 3;
    assert Templates[k].separator == sep;
    AttemptsAt(a, b, c, k, sep);
    ValueOfAttempts(a + [sep] + b + [sep] + c, k, FieldValue(a), FieldValue(b), FieldValue(c));
  }

  /** `valueOf` of a text on which only the templates at `k` and `k + 4` can
      read anything, and they read the two orders of the same three numbers. */
  lemma ValueOfAttempts(text: string, k: nat, x: int, y: int, z: int)
    requires k < 4
    requires Attempts(Templates, text)[k] == (if Valid(Date(x, y, z)) then Some(Date(x, y, z)) else None)
    requires Attempts(Templates, text)[k + 4] == (if Valid(Date(z, y, x)) then Some(Date(z, y, x)) else None)
    requires forall i :: 0 <= i < |Templates| && i != k && i != k + 4 ==> Attempts(Templates, text)[i].None?
    ensures ValueOfString(Some(text)) ==
      if Valid(Date(x, y, z)) then Ok(DateValue(Date(x, y, z)))
      else if Valid(Date(z, y, x)) then Ok(DateValue(Date(z, y, x)))
      else Err(ValueConversion(FailureMessage(text)))
  {
    FirstFieldsReading(Attempts(Templates, text), k, x, y, z);
  }

  /** The day-first text 05/03/2020 is read by dd/MM/yyyy as 5 March 2020,
      since yyyy/MM/dd would need day 2020. */
  lemma DayFirstTextExample()
    ensures ValueOfString(Some("05" + "/" + "03" + "/" + "2020")) == Ok(DateValue(Date(2020, 3, 5)))
  {
    NumberExample();
    ValueOfFields("05", "03", "2020", '/');
  }

  /** A two-digit year is taken literally: 05-03-12 is the fifth of March of
      year 5 under yyyy-MM-dd, the first template that reads it. */
  lemma ShortYearExample()
    ensures ValueOfString(Some("05" + "-" + "03" + "-" + "12")) == Ok(DateValue(Date(5, 3, 12)))
  {
    NumberExample();
    ValueOfFields("05", "03", "12", '-');
  }

  /** A year field beyond the `int` range keeps only its low 32 bits: the
      year 4294969316, which is 2^32 + 2020, is read as 2020. */
  lemma WrappedYearExample(a: string, b: string, c: string)
    requires |a| > 0 && AllDigits(a) && NumberOf(a) == 0x1_0000_0000 + 2020
    requires |b| > 0 && AllDigits(b) && NumberOf(b) == 3
    requires |c| > 0 && AllDigits(c) && NumberOf(c) == 5
    ensures ValueOfString(Some(a + "-" + b + "-" + c)) == Ok(DateValue(Date(2020, 3, 5)))
  {
    var n := NumberOf(a);
    assert IntOfLong(n) == 2020 by {
      assert n + 0x8000_0000 == 0x1_0000_0000 + (0x8000_0000 + 2020);
    }
    assert FieldValue(a) == 2020 && FieldValue(b) == 3 && FieldValue(c) == 5;
    assert Valid(Date(2020, 3, 5));
    ValueOfFields(a, b, c, '-');
  }

  /** A year past the largest year of the Gregorian calendar is refused by
      every template. */
  lemma LargeYearRefused(a: string, b: string, c: string)
    requires |a| > 0 && AllDigits(a) && NumberOf(a) == MaxYear + 1
    requires |b| > 0 && AllDigits(b) && NumberOf(b) == 3
    requires |c| > 0 && AllDigits(c) && NumberOf(c) == 5
    ensures ValueOfString(Some(a + "-" + b + "-" + c)).Err?
  {
    ValueOfFields(a, b, c, '-');
  }

  /** The pattern of a template, spelled out. */
  lemma PatternOf(t: Template)
    ensures t.order == YearMonthDay ==> Pattern(t) == ['y', 'y', 'y', 'y', t.separator, 'M', 'M', t.separator, 'd', 'd']
    ensures t.order == DayMonthYear ==> Pattern(t) == ['d', 'd', t.separator, 'M', 'M', t.separator, 'y', 'y', 'y', 'y']
  {
  }

  /** The SimpleDateFormat patterns of the templates, in the order they are tried. */
  lemma TemplatePatterns()
    ensures Pattern(Templates[0]) == "yyyy-MM-dd" && Pattern(Templates[1]) == "yyyy/MM/dd"
    ensures Pattern(Templates[2]) == "yyyy.MM.dd" && Pattern(Templates[3]) == "yyyy MM dd"
    ensures Pattern(Templates[4]) == "dd-MM-yyyy" && Pattern(Templates[5]) == "dd/MM/yyyy"
    ensures Pattern(Templates[6]) == "dd.MM.yyyy" && Pattern(Templates[7]) == "dd MM yyyy"
  {
    forall i | 0 <= i < |Templates|
      ensures Templates[i].order == YearMonthDay ==> Pattern(Templates[i]) == ['y', 'y', 'y', 'y', Templates[i].separator, 'M', 'M', Templates[i].separator, 'd', 'd']
      ensures Templates[i].order == DayMonthYear ==> Pattern(Templates[i]) == ['d', 'd', Templates[i].separator, 'M', 'M', Templates[i].separator, 'y', 'y', 'y', 'y']
    {
      PatternOf(Templates[i]);
    }
  }
}
