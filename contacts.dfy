/** A contact: the `Record` class, and the pure `Contact` value that is a
    snapshot of a record's fields, on which rendering, search and the
    birthday computations are defined. */
module Contacts {
  import opened Wrappers
  import opened Text
  import opened Seqs
  import opened Calendar
  import opened Fields

  /** The values a record holds: its name, its phone and email values in
      list order, and its optional address and birthday values. */
  datatype Contact = Contact(
    name: string,
    phones: seq<string>,
    emails: seq<string>,
    address: Option<string>,
    birthday: Option<string>)

  /** v is what a field of that kind stores after a successful assignment. */
  predicate Canonical(kind: FieldKind, v: string) {
    Validate(kind, v) == Ok(v)
  }

  /** Every value came through its field's setter. */
  predicate ValidContact(c: Contact) {
    Canonical(TextField, c.name) &&
    (forall p | p in c.phones :: Canonical(PhoneField, p)) &&
    (forall e | e in c.emails :: Canonical(EmailField, e)) &&
    (c.address.Some? ==> Canonical(TextField, c.address.value)) &&
    (c.birthday.Some? ==> Canonical(BirthdayField, c.birthday.value))
  }

  // ----- Birthdays -----

  /** `Record.get_next_birthday`: None without a birthday, otherwise the
      stored value read back as a date and moved to its next anniversary. */
  function NextBirthdayOf(c: Contact, today: Date): (r: Result<Option<Date>, Error>)
    requires ValidDate(today)
    ensures r == Ok(None) <==> c.birthday.None?
    ensures r.Ok? && r.value.Some? ==> ValidDate(r.value.value)
  {
    match c.birthday
    case None => Ok(None)
    case Some(v) =>
      match ParseBirthday(v)
      case Err(e) => Err(e)
      case Ok(born) =>
        match NextBirthday(born, today)
        case Err(e) => Err(e)
        case Ok(n) =>
          NextBirthdayIsNext(born, today);
          Ok(Some(n))
  }

  /** `Record.days_to_birthday`: None without a birthday, otherwise the days
      from today to the next anniversary. */
  function DaysToBirthdayOf(c: Contact, today: Date): Result<Option<int>, Error>
    requires ValidDate(today)
  {
    match c.birthday
    case None => Ok(None)
    case Some(v) =>
      match ParseBirthday(v)
      case Err(e) => Err(e)
      case Ok(born) =>
        match DaysToBirthday(born, today)
        case Err(e) => Err(e)
        case Ok(k) => Ok(Some(k))
  }

  /** For a valid contact with a birthday: the stored value is the display
      form of the date of birth, the next birthday is the earliest existing
      date on or after today with its month and day, the day count is the
      distance to it, and a failure is the ValueError of `date()`. */
  lemma BirthdayOfSpec(c: Contact, today: Date)
    requires ValidContact(c) && ValidDate(today) && c.birthday.Some?
    ensures ParseBirthday(c.birthday.value).Ok?
    ensures
      var born := ParseBirthday(c.birthday.value).value;
      ValidDate(born) && FormatBirthday(born) == c.birthday.value &&
      (NextBirthdayOf(c, today).Err? <==> NextBirthday(born, today).Err?) &&
      (NextBirthdayOf(c, today).Err? ==> NextBirthdayOf(c, today).error == DateOutOfRange) &&
      (NextBirthdayOf(c, today).Ok? ==>
        var n := NextBirthdayOf(c, today).value.value;
        ValidDate(n) && n.month == born.month && n.day == born.day && DateLe(today, n) &&
        (n.year == today.year || n.year == today.year + 1) &&
        forall d :: ValidDate(d) && d.month == born.month && d.day == born.day && DateLe(today, d) ==> DateLe(n, d))
  {
    var v := c.birthday.value;
    CanonicalBirthdayParses(v);
    var born := ParseBirthday(v).value;
    NextBirthdayIsNext(born, today);
  }

  /** The two birthday queries agree: they fail together, are None
      together, and the day count is the distance to the next birthday,
      never negative. */
  lemma DaysToBirthdayOfIsDistance(c: Contact, today: Date)
    requires ValidDate(today)
    ensures DaysToBirthdayOf(c, today).Err? <==> NextBirthdayOf(c, today).Err?
    ensures DaysToBirthdayOf(c, today).Err? ==> DaysToBirthdayOf(c, today).error == NextBirthdayOf(c, today).error
    ensures DaysToBirthdayOf(c, today) == Ok(None) <==> NextBirthdayOf(c, today) == Ok(None)
    ensures DaysToBirthdayOf(c, today).Ok? && DaysToBirthdayOf(c, today).value.Some? ==>
      var n := NextBirthdayOf(c, today).value.value;
      DaysToBirthdayOf(c, today).value.value == Ordinal(n) - Ordinal(today) >= 0
  {
    if c.birthday.Some? && ParseBirthday(c.birthday.value).Ok? {
      DaysToBirthdayIsDistance(ParseBirthday(c.birthday.value).value, today);
    }
  }

  // ----- Rendering -----

  /** The pieces `Record.__str__` joins: the name always, each other field
      only when present. An address that is present is shown even when its
      text is empty, since an `Address` object is always true. */
  function Parts(c: Contact): seq<string> {
    ["Name: " + c.name] +
    (if c.phones != [] then ["Phones: " + Join(", ", c.phones)] else []) +
    (if c.emails != [] then ["Emails: " + Join(", ", c.emails)] else []) +
    (if c.address.Some? then ["Address: " + c.address.value] else []) +
    (if c.birthday.Some? then ["Birthday: " + c.birthday.value] else [])
  }

  /** `Record.__str__`. */
  function Render(c: Contact): string {
    Join(" | ", Parts(c))
  }

  /** The text starts with the name, and shows every field that is present. */
  lemma RenderShowsFields(c: Contact)
    ensures IsPrefix("Name: " + c.name, Render(c))
    ensures c.phones != [] ==> Contains(Render(c), "Phones: " + Join(", ", c.phones))
    ensures c.emails != [] ==> Contains(Render(c), "Emails: " + Join(", ", c.emails))
    ensures c.address.Some? ==> Contains(Render(c), "Address: " + c.address.value)
    ensures c.birthday.Some? ==> Contains(Render(c), "Birthday: " + c.birthday.value)
  {
    var ps := Parts(c);
    JoinStartsWithFirst(" | ", ps);
    forall x | x in ps ensures Contains(Render(c), x) {
      var i :| 0 <= i < |ps| && ps[i] == x;
      JoinContainsPart(" | ", ps, i);
    }
  }

  /** A contact with only a name is shown as its name line. */
  lemma RenderNameOnly(c: Contact)
    requires c.phones == [] && c.emails == [] && c.address.None? && c.birthday.None?
    ensures Render(c) == "Name: " + c.name
  {
  }

  /** Phone values are separated by ", ". */
  lemma RenderPhonesExample()
    ensures Render(Contact("Ann", ["0501234567", "0671234567"], [], None, None)) ==
      "Name: Ann" + " | " + ("Phones: " + ("0501234567" + ", " + "0671234567"))
  {
    var c := Contact("Ann", ["0501234567", "0671234567"], [], None, None);
    var phones := "Phones: " + ("0501234567" + ", " + "0671234567");
    JoinTwo(", ", "0501234567", "0671234567");
    assert "Name: " + c.name == "Name: Ann";
    assert Parts(c) == ["Name: Ann", phones];
    JoinTwo(" | ", "Name: Ann", phones);
  }

  /** Parts are separated by " | ". */
  lemma RenderPartsExample()
    ensures Render(Contact("Ann", [], ["ann@mail.com"], Some("Kyiv"), None)) ==
      "Name: Ann" + " | " + ("Emails: ann@mail.com" + " | " + "Address: Kyiv")
  {
    var d := Contact("Ann", [], ["ann@mail.com"], Some("Kyiv"), None);
    var ps := Parts(d);
    assert "Name: " + d.name == "Name: Ann";
    assert "Emails: " + Join(", ", d.emails) == "Emails: ann@mail.com";
    assert "Address: " + d.address.value == "Address: Kyiv";
    assert ps == ["Name: Ann", "Emails: ann@mail.com", "Address: Kyiv"];
    JoinThree(" | ", "Name: Ann", "Emails: ann@mail.com", "Address: Kyiv");
  }

  // ----- Search -----

  function LowerAll(s: seq<string>): (r: seq<string>)
    ensures |r| == |s| && forall i :: 0 <= i < |s| ==> r[i] == Lower(s[i])
  {
    if s == [] then [] else [Lower(s[0])] + LowerAll(s[1..])
  }

  /** The strings `AddressBook.search` looks in: the lowered name, the
      phones, the lowered emails, the lowered address or "", and the
      birthday or "". */
  function Hay(c: Contact): seq<string> {
    [Lower(c.name)] + c.phones + LowerAll(c.emails) +
    [if c.address.Some? then Lower(c.address.value) else ""] +
    [if c.birthday.Some? then c.birthday.value else ""]
  }

  /** A field "hits" when it is not empty and its lowered text contains q. */
  predicate Hits(v: string, q: string) {
    v != "" && Contains(Lower(v), q)
  }

  /** `any(q in h.lower() for h in hs if h)`. */
  predicate AnyHit(hs: seq<string>, q: string) {
    exists i :: 0 <= i < |hs| && Hits(hs[i], q)
  }

  /** The test `AddressBook.search` applies to one record. */
  predicate Matches(c: Contact, q: string) {
    AnyHit(Hay(c), q)
  }

  lemma AnyHitConcat(s: seq<string>, t: seq<string>, q: string)
    ensures AnyHit(s + t, q) <==> AnyHit(s, q) || AnyHit(t, q)
  {
    if AnyHit(s + t, q) {
      var i :| 0 <= i < |s + t| && Hits((s + t)[i], q);
      if i >= |s| {
        assert t[i - |s|] == (s + t)[i];
      }
    }
    if AnyHit(s, q) {
      var i :| 0 <= i < |s| && Hits(s[i], q);
      assert (s + t)[i] == s[i];
    }
    if AnyHit(t, q) {
      var i :| 0 <= i < |t| && Hits(t[i], q);
      assert (s + t)[i + |s|] == t[i];
    }
  }

  lemma AnyHitMembers(s: seq<string>, q: string)
    ensures AnyHit(s, q) <==> exists v | v in s :: Hits(v, q)
  {
    if exists v | v in s :: Hits(v, q) {
      var v :| v in s && Hits(v, q);
      var i :| 0 <= i < |s| && s[i] == v;
    }
  }

  /** Lowering a field before the test changes nothing. */
  lemma HitsLower(v: string, q: string)
    ensures Hits(Lower(v), q) == Hits(v, q)
  {
    LowerIdempotent(v);
  }

  lemma AnyHitLowerAll(s: seq<string>, q: string)
    ensures AnyHit(LowerAll(s), q) <==> AnyHit(s, q)
  {
    forall i | 0 <= i < |s| ensures Hits(LowerAll(s)[i], q) == Hits(s[i], q) {
      HitsLower(s[i], q);
    }
  }

  /** Matching, field by field: the query occurs, ignoring case, in the
      name, a phone, an email, the address or the birthday, and empty
      fields never match. */
  lemma MatchesFields(c: Contact, q: string)
    ensures Matches(c, q) <==>
      Hits(c.name, q) ||
      (exists p | p in c.phones :: Hits(p, q)) ||
      (exists e | e in c.emails :: Hits(e, q)) ||
      (c.address.Some? && Hits(c.address.value, q)) ||
      (c.birthday.Some? && Hits(c.birthday.value, q))
  {
    var a := [if c.address.Some? then Lower(c.address.value) else ""];
    var b := [if c.birthday.Some? then c.birthday.value else ""];
    var hay := [Lower(c.name)] + c.phones + LowerAll(c.emails) + a + b;
    assert Hay(c) == hay;
    AnyHitConcat([Lower(c.name)] + c.phones + LowerAll(c.emails) + a, b, q);
    AnyHitConcat([Lower(c.name)] + c.phones + LowerAll(c.emails), a, q);
    AnyHitConcat([Lower(c.name)] + c.phones, LowerAll(c.emails), q);
    AnyHitConcat([Lower(c.name)], c.phones, q);
    AnyHitMembers([Lower(c.name)], q);
    AnyHitMembers(a, q);
    AnyHitMembers(b, q);
    AnyHitMembers(c.phones, q);
    AnyHitLowerAll(c.emails, q);
    AnyHitMembers(c.emails, q);
    HitsLower(c.name, q);
    if c.address.Some? {
      HitsLower(c.address.value, q);
    }
  }

  // ----- The record -----

  /** `Record`: a contact whose lists and optional fields change in place.
      The name is fixed once the record exists. */
  class Record {
    const name: string
    var phones: seq<string>
    var emails: seq<string>
    var address: Option<string>
    var birthday: Option<string>

    function Value(): Contact
      reads this
    {
      Contact(name, phones, emails, address, birthday)
    }

    predicate Valid()
      reads this
    {
      ValidContact(Value())
    }

    /** `Record(name)`: no phones, no emails, no address, no birthday. */
    constructor (n: Field)
      requires n.kind == TextField && n.Valid()
      ensures name == n.value && phones == [] && emails == [] && address.None? && birthday.None?
      ensures Valid()
    {
      name := n.value;
      phones := [];
      emails := [];
      address := None;
      birthday := None;
    }

    /** `add_phone`: appends the value unless an equal one is already there. */
    method AddPhone(p: Field)
      requires Valid() && p.kind == PhoneField && p.Valid()
      modifies this
      ensures Valid()
      ensures phones == AppendNew(old(phones), p.value)
      ensures emails == old(emails) && address == old(address) && birthday == old(birthday)
    {
      if p.value !in phones {
        phones := phones + [p.value];
      }
    }

    /** `remove_phone`: deletes the first phone equal to v and says whether
        there was one. */
    method RemovePhone(v: string) returns (removed: bool)
      requires Valid()
      modifies this
      ensures Valid()
      ensures removed <==> v in old(phones)
      ensures phones == RemoveFirst(old(phones), v)
      ensures emails == old(emails) && address == old(address) && birthday == old(birthday)
    {
      var i := FindFirst(phones, v);
      FirstIndexFound(phones, v);
      WithoutPhone(Value(), v);
      removed := i < |phones|;
      if removed {
        phones := phones[..i] + phones[i + 1..];
      }
    }

    /** `edit_phone`: the first phone equal to old_value takes the validated
        new value. KeyError when there is none; the setter's ValueError
        leaves the phone as it was. No duplicate check is made. */
    method EditPhone(oldValue: string, newValue: string) returns (o: Outcome<Error>)
      requires Valid()
      modifies this
      ensures Valid()
      ensures oldValue !in old(phones) ==> o == Fail(NotFound) && phones == old(phones)
      ensures oldValue in old(phones) && PhoneValue(newValue).Err? ==> o == Fail(InvalidPhone) && phones == old(phones)
      ensures oldValue in old(phones) && PhoneValue(newValue).Ok? ==>
        o == Pass && phones == ReplaceFirst(old(phones), oldValue, PhoneValue(newValue).value)
      ensures emails == old(emails) && address == old(address) && birthday == old(birthday)
    {
      var i := FindFirst(phones, oldValue);
      FirstIndexFound(phones, oldValue);
      if i == |phones| {
        o := Fail(NotFound);
        return;
      }
      PhoneValueSpec(newValue);
      match PhoneValue(newValue)
      case Err(e) =>
        o := Fail(e);
      case Ok(v) =>
        ValidateIdempotent(PhoneField, newValue);
        phones := phones[i := v];
        o := Pass;
    }

    /** `add_email`: appends the value unless an equal one is already there. */
    method AddEmail(e: Field)
      requires Valid() && e.kind == EmailField && e.Valid()
      modifies this
      ensures Valid()
      ensures emails == AppendNew(old(emails), e.value)
      ensures phones == old(phones) && address == old(address) && birthday == old(birthday)
    {
      if e.value !in emails {
        emails := emails + [e.value];
      }
    }

    /** `remove_email`: deletes the first email equal to v and says whether
        there was one. */
    method RemoveEmail(v: string) returns (removed: bool)
      requires Valid()
      modifies this
      ensures Valid()
      ensures removed <==> v in old(emails)
      ensures emails == RemoveFirst(old(emails), v)
      ensures phones == old(phones) && address == old(address) && birthday == old(birthday)
    {
      var i := FindFirst(emails, v);
      FirstIndexFound(emails, v);
      WithoutEmail(Value(), v);
      removed := i < |emails|;
      if removed {
        emails := emails[..i] + emails[i + 1..];
      }
    }

    /** `set_address`. */
    method SetAddress(a: Field)
      requires Valid() && a.kind == TextField && a.Valid()
      modifies this
      ensures Valid()
      ensures address == Some(a.value)
      ensures phones == old(phones) && emails == old(emails) && birthday == old(birthday)
    {
      address := Some(a.value);
    }

    /** `set_birthday`. */
    method SetBirthday(b: Field)
      requires Valid() && b.kind == BirthdayField && b.Valid()
      modifies this
      ensures Valid()
      ensures birthday == Some(b.value)
      ensures phones == old(phones) && emails == old(emails) && address == old(address)
    {
      birthday := Some(b.value);
    }

    /** `get_next_birthday(today)`: None exactly without a birthday;
        otherwise an existing date not before today (its month and day are
        the birthday's, as `BirthdayOfSpec` shows), or the ValueError of
        `date()`. */
    function NextBirthday(today: Date): (r: Result<Option<Date>, Error>)
      reads this
      requires Valid() && ValidDate(today)
      ensures r == Ok(None) <==> birthday.None?
      ensures r.Ok? && r.value.Some? ==> ValidDate(r.value.value) && DateLe(today, r.value.value)
      ensures r.Err? ==> r.error == DateOutOfRange
    {
      if birthday.None? then NextBirthdayOf(Value(), today)
      else
        BirthdayOfSpec(Value(), today);
        NextBirthdayOf(Value(), today)
    }

    /** `days_to_birthday(today)`: None exactly without a birthday; otherwise
        the number of days, never negative, to the next birthday. */
    function DaysToBirthday(today: Date): (r: Result<Option<int>, Error>)
      reads this
      requires Valid() && ValidDate(today)
      ensures r == Ok(None) <==> birthday.None?
      ensures r.Ok? && r.value.Some? ==>
        NextBirthday(today).Ok? && r.value.value == Ordinal(NextBirthday(today).value.value) - Ordinal(today) >= 0
      ensures r.Err? <==> NextBirthday(today).Err?
    {
      DaysToBirthdayOfIsDistance(Value(), today);
      DaysToBirthdayOf(Value(), today)
    }

    /** `__str__`: starts with the name and shows every present field. */
    function ToString(): (s: string)
      reads this
      ensures IsPrefix("Name: " + name, s)
    {
      RenderShowsFields(Value());
      Render(Value())
    }
  }

  lemma WithoutPhone(c: Contact, v: string)
    requires ValidContact(c)
    ensures ValidContact(c.(phones := RemoveFirst(c.phones, v)))
  {
    RemoveFirstCount(c.phones, v);
    KeepsCanonical(c.phones, RemoveFirst(c.phones, v), PhoneField);
    WithPhones(c, RemoveFirst(c.phones, v));
  }

  lemma WithPhones(c: Contact, ps: seq<string>)
    requires ValidContact(c)
    requires forall p | p in ps :: Canonical(PhoneField, p)
    ensures ValidContact(c.(phones := ps))
  {
  }

  lemma WithoutEmail(c: Contact, v: string)
    requires ValidContact(c)
    ensures ValidContact(c.(emails := RemoveFirst(c.emails, v)))
  {
    RemoveFirstCount(c.emails, v);
    KeepsCanonical(c.emails, RemoveFirst(c.emails, v), EmailField);
    WithEmails(c, RemoveFirst(c.emails, v));
  }

  lemma WithEmails(c: Contact, es: seq<string>)
    requires ValidContact(c)
    requires forall e | e in es :: Canonical(EmailField, e)
    ensures ValidContact(c.(emails := es))
  {
  }

  /** Deleting from a list of canonical values leaves canonical values. */
  lemma KeepsCanonical(s: seq<string>, t: seq<string>, kind: FieldKind)
    requires forall v | v in s :: Canonical(kind, v)
    requires multiset(t) <= multiset(s)
    ensures forall v | v in t :: Canonical(kind, v)
  {
    forall v | v in t ensures Canonical(kind, v) {
      assert v in multiset(t);
    }
  }
}
