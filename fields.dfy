/** The validated string fields of a contact (`Field`, `Name`, `Address`,
    `Phone`, `Email`, `Birthday`). Every assignment strips its input and then
    validates it; a failed assignment raises before the stored value is
    written. */
module Fields {
  import opened Wrappers
  import opened Text
  import opened Seqs
  import opened Calendar

  /** Which setter a field has: `Name` and `Address` use the plain `Field`
      setter (strip only). */
  datatype FieldKind = TextField | PhoneField | EmailField | BirthdayField

  const PhoneDigits := 10

  // ----- Phone: ^\d{10}$ -----

  predicate AllDigits(t: string) {
    forall k :: 0 <= k < |t| ==> IsDigit(t[k])
  }

  predicate IsPhone(s: string) {
    |s| == PhoneDigits && AllDigits(s)
  }

  // ----- Email: ^[A-Za-z0-9._%+-]+@[A-Za-z0-9.-]+\.[A-Za-z]{2,}$ -----

  predicate IsLocalChar(c: char) {
    IsLetter(c) || IsDigit(c) || c == '.' || c == '_' || c == '%' || c == '+' || c == '-'
  }

  predicate IsDomainChar(c: char) {
    IsLetter(c) || IsDigit(c) || c == '.' || c == '-'
  }

  /** The pattern read literally: s is local + "@" + domain + "." + tld, with
      the "@" at index a and the "." at index d. */
  predicate EmailSplit(s: string, a: int, d: int) {
    0 < a && a + 1 < d && d + 3 <= |s| && s[a] == '@' && s[d] == '.' &&
    (forall k :: 0 <= k < a ==> IsLocalChar(s[k])) &&
    (forall k :: a < k < d ==> IsDomainChar(s[k])) &&
    (forall k :: d < k < |s| ==> IsLetter(s[k]))
  }

  ghost predicate MatchesEmailPattern(s: string) {
    exists a, d :: EmailSplit(s, a, d)
  }

  /** Index of the last c in s, or -1. */
  function LastIndex(s: string, c: char): (i: int)
    ensures -1 <= i < |s|
    ensures i >= 0 ==> s[i] == c
    ensures forall k :: i < k < |s| ==> s[k] != c
  {
    if s == [] then -1 else if s[|s| - 1] == c then |s| - 1 else LastIndex(s[..|s| - 1], c)
  }

  /** The deterministic reading of the pattern: the "@" is the last one and
      the "." before the top-level label is the last one. */
  predicate IsEmail(s: string) {
    EmailSplit(s, LastIndex(s, '@'), LastIndex(s, '.'))
  }

  /** A split of the pattern can only be at the last "@" and the last ".",
      since neither the domain nor the top-level label may hold an "@" and the
      top-level label holds no ".". */
  lemma EmailSplitUnique(s: string, a: int, d: int)
    requires EmailSplit(s, a, d)
    ensures a == LastIndex(s, '@') && d == LastIndex(s, '.')
  {
    var la, ld := LastIndex(s, '@'), LastIndex(s, '.');
    assert la >= a;
    assert ld >= d;
  }

  /** `IsEmail` accepts exactly the strings the pattern matches in full. */
  lemma IsEmailMatchesPattern(s: string)
    ensures IsEmail(s) <==> MatchesEmailPattern(s)
  {
    if MatchesEmailPattern(s) {
      var a, d :| EmailSplit(s, a, d);
      EmailSplitUnique(s, a, d);
    }
  }

  // ----- Birthday: strptime / strftime with %d.%m.%Y -----

  function Digit(c: char): int {
    c as int - '0' as int
  }

  function DigitChar(n: int): char
    requires 0 <= n <= 9
  {
    ('0' as int + n) as char
  }

  /** Decimal value of a digit string. */
  function Num(t: string): int {
    if t == [] then 0 else 10 * Num(t[..|t| - 1]) + Digit(t[|t| - 1])
  }

  lemma Num1(t: string)
    requires |t| == 1
    ensures Num(t) == Digit(t[0])
  {
    assert t[..0] == [];
  }

  lemma Num2(t: string)
    requires |t| == 2
    ensures Num(t) == 10 * Digit(t[0]) + Digit(t[1])
  {
    Num1(t[..1]);
  }

  lemma Num4(t: string)
    requires |t| == 4
    ensures Num(t) == 1000 * Digit(t[0]) + 100 * Digit(t[1]) + 10 * Digit(t[2]) + Digit(t[3])
  {
    Num2(t[..2]);
    assert t[..3][..2] == t[..2];
    assert Num(t[..3]) == 10 * Num(t[..2]) + Digit(t[2]);
  }

  /** `%d`: `3[01]|[12]\d|0[1-9]|[1-9]`, i.e. 1 to 31 in one or two digits. */
  predicate IsDayText(t: string) {
    AllDigits(t) && ((|t| == 1 && t[0] != '0') || (|t| == 2 && 1 <= Num(t) <= 31))
  }

  /** `%m`: `1[0-2]|0[1-9]|[1-9]`, i.e. 1 to 12 in one or two digits. */
  predicate IsMonthText(t: string) {
    AllDigits(t) && ((|t| == 1 && t[0] != '0') || (|t| == 2 && 1 <= Num(t) <= 12))
  }

  /** `%Y`: exactly four digits. */
  predicate IsYearText(t: string) {
    |t| == 4 && AllDigits(t)
  }

  /** The format read literally: s is day "." month "." year, denoting d. */
  ghost predicate Spells(s: string, d: Date) {
    exists dt, mt, yt :: s == dt + "." + mt + "." + yt &&
      IsDayText(dt) && IsMonthText(mt) && IsYearText(yt) &&
      d == Date(Num(yt), Num(mt), Num(dt))
  }

  /** The three fields between the first two dots, if there are two dots. */
  function SplitFields(s: string): Option<(string, string, string)> {
    var i := FirstIndex(s, '.');
    if i == |s| then None
    else
      var rest := s[i + 1..];
      var j := FirstIndex(rest, '.');
      if j == |rest| then None
      else Some((s[..i], rest[..j], rest[j + 1..]))
  }

  /** A string splits around any of its dots. */
  lemma DotSplit(s: string, i: int)
    requires 0 <= i < |s| && s[i] == '.'
    ensures s == s[..i] + "." + s[i + 1..]
  {
    assert s == s[..i] + [s[i]] + s[i + 1..];
  }

  lemma Regroup(a: string, b: string, c: string)
    ensures a + "." + (b + "." + c) == a + "." + b + "." + c
  {
  }

  /** The fields found are the string's pieces around the two dots. */
  lemma SplitFieldsJoin(s: string)
    requires SplitFields(s).Some?
    ensures s == SplitFields(s).value.0 + "." + SplitFields(s).value.1 + "." + SplitFields(s).value.2
  {
    var i := FirstIndex(s, '.');
    var rest := s[i + 1..];
    var j := FirstIndex(rest, '.');
    var dt, mt, yt := s[..i], rest[..j], rest[j + 1..];
    assert SplitFields(s) == Some((dt, mt, yt));
    DotSplit(s, i);
    DotSplit(rest, j);
    Regroup(dt, mt, yt);
  }

  /** `datetime.strptime(s, "%d.%m.%Y")`: the three fields sit around the two
      first dots; the date must exist (year 1 to 9999, day within the month). */
  function ParseBirthday(s: string): Result<Date, Error> {
    match SplitFields(s)
    case None => Err(InvalidBirthday)
    case Some((dt, mt, yt)) =>
      if !(IsDayText(dt) && IsMonthText(mt) && IsYearText(yt)) then Err(InvalidBirthday)
      else
        match MakeDate(Num(yt), Num(mt), Num(dt))
        case Ok(d) => Ok(d)
        case Err(_) => Err(InvalidBirthday)
  }

  lemma SplitAtFirstDot(s: string, dt: string, tail: string)
    requires s == dt + "." + tail && AllDigits(dt)
    ensures FirstIndex(s, '.') == |dt| && s[..|dt|] == dt && s[|dt| + 1..] == tail
  {
    assert forall k :: 0 <= k < |dt| ==> s[k] == dt[k];
    FirstIndexUnique(s, '.', |dt|);
  }

  /** Parsing a spelled-out date reads back its three fields. */
  lemma ParseOfSpelling(s: string, dt: string, mt: string, yt: string)
    requires s == dt + "." + mt + "." + yt
    requires IsDayText(dt) && IsMonthText(mt) && IsYearText(yt)
    ensures ParseBirthday(s) == (if ValidDate(Date(Num(yt), Num(mt), Num(dt))) then Ok(Date(Num(yt), Num(mt), Num(dt))) else Err(InvalidBirthday))
  {
    SplitOfSpelling(s, dt, mt, yt);
  }

  /** A spelled-out date splits into its three fields. */
  lemma SplitOfSpelling(s: string, dt: string, mt: string, yt: string)
    requires s == dt + "." + mt + "." + yt && AllDigits(dt) && AllDigits(mt)
    ensures SplitFields(s) == Some((dt, mt, yt))
  {
    var tail := mt + "." + yt;
    assert s == dt + "." + tail;
    SplitAtFirstDot(s, dt, tail);
    SplitAtFirstDot(tail, mt, yt);
  }

  /** A successful parse came from a spelling of the date. */
  lemma ParseIsSpelling(s: string)
    requires ParseBirthday(s).Ok?
    ensures Spells(s, ParseBirthday(s).value) && ValidDate(ParseBirthday(s).value)
  {
    SplitFieldsJoin(s);
  }

  /** The parser accepts exactly the strings that spell an existing date in
      the format, and returns that date; every failure is InvalidBirthday. */
  lemma ParseBirthdayMeaning(s: string, d: Date)
    ensures ParseBirthday(s) == Ok(d) <==> Spells(s, d) && ValidDate(d)
    ensures ParseBirthday(s).Err? ==> ParseBirthday(s).error == InvalidBirthday
  {
    if Spells(s, d) && ValidDate(d) {
      ParseOfSpells(s, d);
    }
    if ParseBirthday(s).Ok? {
      ParseIsSpelling(s);
    }
  }

  lemma ParseOfSpells(s: string, d: Date)
    requires Spells(s, d) && ValidDate(d)
    ensures ParseBirthday(s) == Ok(d)
  {
    var dt, mt, yt :| s == dt + "." + mt + "." + yt &&
      IsDayText(dt) && IsMonthText(mt) && IsYearText(yt) &&
      d == Date(Num(yt), Num(mt), Num(dt));
    ParseOfSpelling(s, dt, mt, yt);
  }

  function Pad2(n: int): (t: string)
    requires 0 <= n < 100
    ensures |t| == 2 && AllDigits(t) && Num(t) == n
  {
    var t := [DigitChar(n / 10), DigitChar(n % 10)];
    Num2(t);
    t
  }

  function Pad4(n: int): (t: string)
    requires 0 <= n < 10000
    ensures |t| == 4 && AllDigits(t) && Num(t) == n
  {
    var hi, lo := Pad2(n / 100), Pad2(n % 100);
    Num4Split(hi + lo);
    assert (hi + lo)[..2] == hi && (hi + lo)[2..] == lo;
    hi + lo
  }

  lemma Num4Split(t: string)
    requires |t| == 4
    ensures Num(t) == 100 * Num(t[..2]) + Num(t[2..])
  {
    Num4(t);
    Num2(t[..2]);
    Num2(t[2..]);
  }

  /** `date.strftime("%d.%m.%Y")`: zero-padded day and month, four-digit year. */
  function FormatBirthday(d: Date): (s: string)
    requires ValidDate(d)
    ensures |s| == 10
  {
    Pad2(d.day) + "." + Pad2(d.month) + "." + Pad4(d.year)
  }

  /** Formatting then parsing gives the date back. */
  lemma ParseFormat(d: Date)
    requires ValidDate(d)
    ensures ParseBirthday(FormatBirthday(d)) == Ok(d)
    ensures Trim(FormatBirthday(d)) == FormatBirthday(d)
  {
    var dt, mt, yt := Pad2(d.day), Pad2(d.month), Pad4(d.year);
    ParseOfSpelling(FormatBirthday(d), dt, mt, yt);
    assert Trim(FormatBirthday(d)) == FormatBirthday(d) by {
      FormattedHasNoSpace(d);
      NoSpaceIsTrimmed(FormatBirthday(d));
    }
  }

  lemma FormattedHasNoSpace(d: Date)
    requires ValidDate(d)
    ensures forall k :: 0 <= k < |FormatBirthday(d)| ==> !IsSpace(FormatBirthday(d)[k])
  {
    var s := FormatBirthday(d);
    forall k | 0 <= k < |s| ensures !IsSpace(s[k]) {
      assert IsDigit(s[k]) || s[k] == '.';
    }
  }

  // ----- The setters -----

  /** The `Phone` setter: the stripped input if it is ten digits. */
  function PhoneValue(raw: string): Result<string, Error> {
    var s := Trim(raw);
    if IsPhone(s) then Ok(s) else Err(InvalidPhone)
  }

  /** The `Email` setter: the stripped input if it passes the pattern check. */
  function EmailValue(raw: string): Result<string, Error> {
    var s := Trim(raw);
    if IsEmail(s) then Ok(s) else Err(InvalidEmail)
  }

  /** The `Birthday` setter: the stripped input parsed and re-serialised. */
  function BirthdayValue(raw: string): Result<string, Error> {
    match ParseBirthday(Trim(raw))
    case Ok(d) => Ok(FormatBirthday(d))
    case Err(_) => Err(InvalidBirthday)
  }

  /** What assigning raw to a field of this kind stores, or the ValueError it
      raises; `Name` and `Address` only strip. */
  function Validate(kind: FieldKind, raw: string): Result<string, Error> {
    match kind
    case TextField => Ok(Trim(raw))
    case PhoneField => PhoneValue(raw)
    case EmailField => EmailValue(raw)
    case BirthdayField => BirthdayValue(raw)
  }

  /** A phone assignment succeeds exactly for ten digits after stripping and
      stores those digits; a ten-digit string is stored unchanged. */
  lemma PhoneValueSpec(raw: string)
    ensures PhoneValue(raw).Ok? <==> IsPhone(Trim(raw))
    ensures PhoneValue(raw).Ok? ==> PhoneValue(raw).value == Trim(raw)
    ensures PhoneValue(raw).Err? ==> PhoneValue(raw).error == InvalidPhone
    ensures IsPhone(raw) ==> PhoneValue(raw) == Ok(raw)
  {
    if IsPhone(raw) {
      PhoneIsTrimmed(raw);
    }
  }

  lemma PhoneIsTrimmed(s: string)
    requires IsPhone(s)
    ensures Trim(s) == s
  {
    NoSpaceIsTrimmed(s);
  }

  /** An email assignment succeeds exactly when the stripped input matches
      the pattern; a matching string is stored unchanged. */
  lemma EmailValueSpec(raw: string)
    ensures EmailValue(raw).Ok? <==> MatchesEmailPattern(Trim(raw))
    ensures EmailValue(raw).Ok? ==> EmailValue(raw).value == Trim(raw)
    ensures EmailValue(raw).Err? ==> EmailValue(raw).error == InvalidEmail
    ensures MatchesEmailPattern(raw) ==> EmailValue(raw) == Ok(raw)
  {
    IsEmailMatchesPattern(Trim(raw));
    if MatchesEmailPattern(raw) {
      assert Trim(raw) == raw by {
        IsEmailMatchesPattern(raw);
        EmailNoSpace(raw);
        NoSpaceIsTrimmed(raw);
      }
    }
  }

  lemma EmailNoSpace(s: string)
    requires IsEmail(s)
    ensures forall k :: 0 <= k < |s| ==> !IsSpace(s[k])
  {
    var a, d := LastIndex(s, '@'), LastIndex(s, '.');
    forall k | 0 <= k < |s| ensures !IsSpace(s[k]) {
      if k < a {
        assert IsLocalChar(s[k]);
      } else if a < k < d {
        assert IsDomainChar(s[k]);
      } else if d < k {
        assert IsLetter(s[k]);
      }
    }
  }

  /** A birthday assignment succeeds exactly when the stripped input spells
      an existing date, and then stores that date zero-padded. */
  lemma BirthdayValueSpec(raw: string, d: Date)
    ensures Spells(Trim(raw), d) && ValidDate(d) ==> BirthdayValue(raw) == Ok(FormatBirthday(d))
    ensures BirthdayValue(raw).Ok? <==> ParseBirthday(Trim(raw)).Ok?
    ensures BirthdayValue(raw).Err? ==> BirthdayValue(raw).error == InvalidBirthday
  {
    ParseBirthdayMeaning(Trim(raw), d);
  }

  /** Assigning the stored value again stores the same value: every setter
      is a canonicalisation. */
  lemma ValidateIdempotent(kind: FieldKind, raw: string)
    requires Validate(kind, raw).Ok?
    ensures Validate(kind, Validate(kind, raw).value) == Validate(kind, raw)
  {
    match kind
    case TextField => TrimIdempotent(raw);
    case PhoneField => PhoneIsTrimmed(Trim(raw));
    case EmailField =>
      assert Trim(Trim(raw)) == Trim(raw) by {
        EmailNoSpace(Trim(raw));
        NoSpaceIsTrimmed(Trim(raw));
      }
    case BirthdayField =>
      var d := ParseBirthday(Trim(raw)).value;
      ParseFormat(d);
  }

  // ----- Examples: lax spellings are normalised, impossible dates fail -----

  /** A birthday typed with surrounding spaces and without zero padding is
      stored as the zero-padded date; see
      FormatExample for the text it displays. */
  lemma BirthdayExamplePadded()
    ensures BirthdayValue(" 1.3.1990 ") == Ok(FormatBirthday(Date(1990, 3, 1)))
  {
    StripPaddedExample();
    ParseShortExample();
  }

  lemma FormatExample()
    ensures FormatBirthday(Date(1990, 3, 1)) == "01.03.1990"
  {
  }

  lemma StripPaddedExample()
    ensures Trim(" 1.3.1990 ") == "1.3.1990"
  {
    assert TrimLeft(" 1.3.1990 ") == "1.3.1990 ";
    assert TrimRight("1.3.1990 ") == "1.3.1990";
  }

  lemma ParseShortExample()
    ensures ParseBirthday("1.3.1990") == Ok(Date(1990, 3, 1))
  {
    assert IsDayText("1") && Num("1") == 1 by { Num1("1"); }
    assert IsMonthText("3") && Num("3") == 3 by { Num1("3"); }
    assert IsYearText("1990") && Num("1990") == 1990 by { Num4("1990"); }
    assert ValidDate(Date(1990, 3, 1));
    ParseOfSpelling("1.3.1990", "1", "3", "1990");
  }

  lemma BirthdayExampleLeap()
    ensures BirthdayValue("29.02.2000") == Ok("29.02.2000")
  {
    var leap := Date(2000, 2, 29);
    assert FormatBirthday(leap) == "29.02.2000";
    assert Trim("29.02.2000") == "29.02.2000" by { NoSpaceIsTrimmed("29.02.2000"); }
    assert ParseBirthday("29.02.2000") == Ok(leap) by { ParseFormat(leap); }
  }

  lemma BirthdayExampleNotLeap()
    ensures BirthdayValue("29.02.2001") == Err(InvalidBirthday)
  {
    assert Trim("29.02.2001") == "29.02.2001" by { NoSpaceIsTrimmed("29.02.2001"); }
    ParseNotLeapExample();
  }

  lemma ParseNotLeapExample()
    ensures ParseBirthday("29.02.2001") == Err(InvalidBirthday)
  {
    assert IsDayText("29") && Num("29") == 29 by { Num2("29"); }
    assert IsMonthText("02") && Num("02") == 2 by { Num2("02"); }
    assert IsYearText("2001") && Num("2001") == 2001 by { Num4("2001"); }
    assert !ValidDate(Date(2001, 2, 29));
    ParseOfSpelling("29.02.2001", "29", "02", "2001");
  }

  lemma BirthdayExampleIso()
    ensures BirthdayValue("1990-03-01") == Err(InvalidBirthday)
  {
    var s := "1990-03-01";
    assert Trim(s) == s by {
      TrimOfTrimmed(s);
    }
    assert SplitFields(s) == None by {
      assert '.' !in s;
      FirstIndexFound(s, '.');
    }
    assert ParseBirthday(s) == Err(InvalidBirthday);
  }

  /** A stored birthday value parses back to the date it displays. */
  lemma CanonicalBirthdayParses(v: string)
    ensures Validate(BirthdayField, v) == Ok(v) ==>
      ParseBirthday(v).Ok? && ValidDate(ParseBirthday(v).value) && FormatBirthday(ParseBirthday(v).value) == v
  {
    if Validate(BirthdayField, v) == Ok(v) {
      var d := ParseBirthday(Trim(v)).value;
      ParseBirthdayMeaning(Trim(v), d);
      ParseFormat(d);
    }
  }

  // ----- The field objects -----

  /** One field object: its setter kind and its current `_value`. */
  class Field {
    const kind: FieldKind
    var value: string

    /** The stored value is the canonical form of the last accepted input. */
    ghost predicate Valid()
      reads this
    {
      Validate(kind, value) == Ok(value)
    }

    /** `self._value = None`, read back through the getter as "". */
    constructor Empty(kind: FieldKind)
      ensures this.kind == kind && value == ""
    {
      this.kind := kind;
      value := "";
    }

    /** The `value` setter: strip, validate, and only then write. */
    method Set(raw: string) returns (o: Outcome<Error>)
      modifies this
      ensures Validate(kind, raw).Ok? ==> o == Pass && value == Validate(kind, raw).value && Valid()
      ensures Validate(kind, raw).Err? ==> o == Fail(Validate(kind, raw).error) && value == old(value)
    {
      match Validate(kind, raw)
      case Ok(v) =>
        ValidateIdempotent(kind, raw);
        value := v;
        o := Pass;
      case Err(e) =>
        o := Fail(e);
    }

    /** `Field(raw)` and its subclasses' constructors: a fresh field holding the
        validated value, or the setter's ValueError. */
    static method Create(kind: FieldKind, raw: string) returns (r: Result<Field, Error>)
      ensures r.Ok? <==> Validate(kind, raw).Ok?
      ensures r.Ok? ==> fresh(r.value) && r.value.kind == kind && r.value.value == Validate(kind, raw).value && r.value.Valid()
      ensures r.Err? ==> r.error == Validate(kind, raw).error
    {
      var f := new Field.Empty(kind);
      var o := f.Set(raw);
      if o.Fail? {
        r := Err(o.error);
      } else {
        r := Ok(f);
      }
    }

    /** `Birthday.as_date`: the stored value parsed back; a valid birthday
        field always parses, to the date it displays. */
    function AsDate(): (r: Result<Date, Error>)
      reads this
      requires kind == BirthdayField
      ensures Valid() ==> r.Ok? && ValidDate(r.value) && FormatBirthday(r.value) == value
    {
      CanonicalBirthdayParses(value);
      ParseBirthday(value)
    }
  }
}
