/** `AddressBook`: records under the lower-cased name, in insertion order. */
module AddressBooks {
  import opened Wrappers
  import opened Text
  import opened Seqs
  import opened Sorting
  import opened Calendar
  import opened Contacts
  import opened Upcoming

  /** The record's key: `record.name.value.lower()`. */
  function NameKeyOf(r: Record): string {
    Lower(r.name)
  }

  /** The sort key `r.name.value.lower()` of `all()`. */
  function RecordOrder(r: Record): seq<int> {
    Ord(Lower(r.name))
  }

  /** Snapshots of records, in order. */
  function ContactsOf(rs: seq<Record>): (cs: seq<Contact>)
    reads rs
    ensures |cs| == |rs|
    ensures forall i :: 0 <= i < |rs| ==> cs[i] == rs[i].Value()
  {
    if rs == [] then [] else [rs[0].Value()] + ContactsOf(rs[1..])
  }

  /** The records of rs that match q, in order: the loop of `search`. */
  function Matching(rs: seq<Record>, q: string): (r: seq<Record>)
    reads rs
    ensures IsSubseq(r, rs)
    ensures forall x | x in r :: x in rs && Matches(x.Value(), q)
    ensures forall x | x in rs && Matches(x.Value(), q) :: x in r
  {
    if rs == [] then []
    else
      var rest := Matching(rs[1..], q);
      if Matches(rs[0].Value(), q) then
        assert ([rs[0]] + rest)[1..] == rest;
        [rs[0]] + rest
      else
        SubseqDropFront(rest, rs);
        rest
  }

  class AddressBook {
    /** The dictionary's keys in insertion order, and the dictionary. */
    var keys: seq<string>
    var data: map<string, Record>

    /** Each key once, the same keys in both, and every record valid and
        stored under its lower-cased name. */
    ghost predicate Valid()
      reads this, data.Values
    {
      NoDup(keys) &&
      (forall k :: k in keys <==> k in data) &&
      (forall k | k in data :: data[k].Valid() && NameKeyOf(data[k]) == k)
    }

    constructor ()
      ensures Valid() && keys == [] && data == map[]
    {
      keys := [];
      data := map[];
    }

    /** `data.values()`. */
    function Records(): (rs: seq<Record>)
      reads this
      requires forall k | k in keys :: k in data
      ensures |rs| == |keys|
      ensures forall i :: 0 <= i < |keys| ==> rs[i] == data[keys[i]]
    {
      InOrder(keys, data)
    }

    /** Snapshots of the records in dictionary order. */
    function Contacts(): seq<Contact>
      reads this, data.Values
      requires forall k | k in keys :: k in data
    {
      ContactsOf(Records())
    }

    /** `add_record`: KeyError when a record with the same lower-cased name
        exists; otherwise the record is stored under that name, last in
        order, and looking up its name finds it. */
    method AddRecord(r: Record) returns (o: Outcome<Error>)
      requires Valid() && r.Valid()
      modifies this
      ensures Valid()
      ensures NameKeyOf(r) in old(data) ==> o == Fail(AlreadyExists) && keys == old(keys) && data == old(data)
      ensures NameKeyOf(r) !in old(data) ==>
        o == Pass && keys == old(keys) + [NameKeyOf(r)] && data == old(data)[NameKeyOf(r) := r]
      ensures o.Pass? ==> GetRecord(r.name) == Ok(r)
    {
      var k := NameKeyOf(r);
      if k in data {
        o := Fail(AlreadyExists);
        return;
      }
      keys := keys + [k];
      data := data[k := r];
      o := Pass;
      assert Key(r.name) == k by {
        TrimOfTrimmed(r.name);
      }
    }

    /** `get_record`: the record stored under the stripped, lower-cased
        name, or KeyError. */
    function GetRecord(name: string): Result<Record, Error>
      reads this
    {
      var k := Key(name);
      if k in data then Ok(data[k]) else Err(NotFound)
    }

    /** Lookup ignores case and surrounding whitespace, and finds exactly
        the records whose lower-cased name is the stripped, lower-cased
        query. */
    lemma GetRecordSpec(name: string)
      requires Valid()
      ensures GetRecord(name).Ok? ==> NameKeyOf(GetRecord(name).value) == Key(name)
      ensures GetRecord(name).Ok? <==> exists x | x in Records() :: NameKeyOf(x) == Key(name)
      ensures forall other :: Key(other) == Key(name) ==> GetRecord(other) == GetRecord(name)
    {
      if exists x | x in Records() :: NameKeyOf(x) == Key(name) {
        var x :| x in Records() && NameKeyOf(x) == Key(name);
        var i :| 0 <= i < |keys| && Records()[i] == x;
        assert data[keys[i]] == x;
      }
      if GetRecord(name).Ok? {
        var i :| 0 <= i < |keys| && keys[i] == Key(name);
        assert Records()[i] == data[Key(name)];
      }
    }

    /** `remove_record`: removes the record under the stripped, lower-cased
        name and says whether there was one; the other records keep their
        order. */
    method RemoveRecord(name: string) returns (removed: bool)
      requires Valid()
      modifies this
      ensures Valid()
      ensures removed <==> Key(name) in old(data)
      ensures data == old(data) - {Key(name)}
      ensures keys == RemoveFirst(old(keys), Key(name))
      ensures GetRecord(name) == Err(NotFound)
    {
      var k := Key(name);
      removed := k in data;
      RemoveFirstKeepsNoDup(keys, k);
      RemoveFirstMembers(keys, k);
      keys := RemoveFirst(keys, k);
      data := data - {k};
    }

    /** `search`: the records, in dictionary order, of which a field
        contains the stripped, lower-cased query ignoring case. */
    function Search(query: string): (r: seq<Record>)
      reads this, data.Values
      requires Valid()
      ensures IsSubseq(r, Records())
      ensures forall x | x in r :: x in Records() && Matches(x.Value(), Trim(Lower(query)))
      ensures forall x | x in Records() && Matches(x.Value(), Trim(Lower(query))) :: x in r
    {
      Matching(Records(), Key(query))
    }

    /** `all`: every record once, sorted by lower-cased name; records with
        equal lower-cased names are impossible, since that is the key. */
    function All(): (r: seq<Record>)
      reads this, data.Values
      requires Valid()
      ensures multiset(r) == multiset(Records())
      ensures SortedBy(r, RecordOrder)
      ensures forall i, j :: 0 <= i < j < |r| ==> Ord(Lower(r[i].name)) != Ord(Lower(r[j].name))
    {
      var rs := Records();
      forall i, j | 0 <= i < j < |rs| ensures RecordOrder(rs[i]) != RecordOrder(rs[j]) {
        assert NameKeyOf(rs[i]) == keys[i] && NameKeyOf(rs[j]) == keys[j];
        if RecordOrder(rs[i]) == RecordOrder(rs[j]) {
          OrdInjective(Lower(rs[i].name), Lower(rs[j].name));
        }
      }
      SortByStrict(rs, RecordOrder);
      SortBySorted(rs, RecordOrder);
      SortBy(rs, RecordOrder)
    }

    /** `upcoming_birthdays(days, today)`: the contacts' next birthdays
        within `days` days, grouped by distance, as `UpcomingOf` describes
        it, or the error the first failing contact raises. */
    method UpcomingBirthdays(days: int, today: Date) returns (r: Result<seq<Group>, Error>)
      requires Valid() && ValidDate(today)
      ensures r == UpcomingOf(Contacts(), days, today)
      ensures r.Ok? ==> ListedOnce(r.value)
    {
      var rs := Records();
      forall k | 0 <= k < |rs| ensures rs[k].Valid() {
        assert rs[k] == data[keys[k]];
      }
      r := UpcomingOfRecords(rs, days, today);
      if r.Ok? {
        NamesDiffer();
        UpcomingOnce(Contacts(), days, today);
      }
    }

    /** Different records have different names, because their lower-cased
        names are the dictionary's distinct keys. */
    lemma NamesDiffer()
      requires Valid()
      ensures NamesDistinct(Contacts())
    {
      var rs := Records();
      var cs := Contacts();
      forall i, j | 0 <= i < j < |cs| ensures cs[i].name != cs[j].name {
        assert rs[i] == data[keys[i]] && rs[j] == data[keys[j]];
        assert NameKeyOf(rs[i]) == keys[i] && NameKeyOf(rs[j]) == keys[j];
      }
    }
  }

  /** The first loop of `upcoming_birthdays`: the distances in the order
      first seen and each distance's entries in contact order, or the
      first error raised. */
  method CollectBuckets(rs: seq<Record>, days: int, today: Date)
    returns (r: Result<(seq<int>, map<int, seq<Entry>>), Error>, ghost h: seq<(int, Entry)>)
    requires ValidDate(today) && forall k | 0 <= k < |rs| :: rs[k].Valid()
    ensures Scan(ContactsOf(rs), days, today).Err? ==> r == Err(Scan(ContactsOf(rs), days, today).error)
    ensures Scan(ContactsOf(rs), days, today).Ok? ==>
      r.Ok? && h == Scan(ContactsOf(rs), days, today).value && r.value.0 == Offsets(h) &&
      (forall d :: d in r.value.1 <==> d in r.value.0) &&
      (forall d | d in r.value.1 :: r.value.1[d] == Bucket(h, d))
  {
    ghost var cs := ContactsOf(rs);
    ghost var hs := HitsOf(cs, days, today);
    var bucket: map<int, seq<Entry>> := map[];
    var order: seq<int> := [];
    h := [];
    var i := 0;
    while i < |rs|
      invariant 0 <= i <= |rs|
      invariant Collect(hs[..i]) == Ok(h)
      invariant order == Offsets(h)
      invariant forall d :: d in bucket <==> d in order
      invariant forall d | d in bucket :: bucket[d] == Bucket(h, d)
    {
      assert rs[i].Value() == cs[i];
      CollectStep(hs, i, h);
      var failed;
      failed, order, bucket, h := Visit(rs[i], days, today, order, bucket, h);
      if failed.Some? {
        r := Err(failed.value);
        CollectErrorSticks(hs, i + 1);
        return;
      }
      i := i + 1;
    }
    assert hs[..i] == hs;
    r := Ok((order, bucket));
  }

  /** One pass of the first loop: the record's hit, if any, recorded in
      `bucket` and `order`, or the error its birthday raises. */
  method Visit(rec: Record, days: int, today: Date, order: seq<int>, bucket: map<int, seq<Entry>>,
               ghost h: seq<(int, Entry)>)
    returns (failed: Option<Error>, order': seq<int>, bucket': map<int, seq<Entry>>, ghost h': seq<(int, Entry)>)
    requires rec.Valid() && ValidDate(today)
    requires order == Offsets(h)
    requires forall d :: d in bucket <==> d in order
    requires forall d | d in bucket :: bucket[d] == Bucket(h, d)
    ensures HitOf(rec.Value(), days, today).Err? ==> failed == Some(HitOf(rec.Value(), days, today).error)
    ensures HitOf(rec.Value(), days, today) == Ok(None) ==> failed == None && h' == h
    ensures HitOf(rec.Value(), days, today).Ok? && HitOf(rec.Value(), days, today).value.Some? ==>
      failed == None && h' == h + [HitOf(rec.Value(), days, today).value.value]
    ensures order' == Offsets(h')
    ensures forall d :: d in bucket' <==> d in order'
    ensures forall d | d in bucket' :: bucket'[d] == Bucket(h', d)
  {
    RecordHit(rec, days, today);
    failed, order', bucket', h' := None, order, bucket, h;
    var delta := rec.DaysToBirthday(today);
    if delta.Err? {
      failed := Some(delta.error);
      return;
    }
    if delta.value.Some? && 0 <= delta.value.value <= days {
      var d := delta.value.value;
      var next := rec.NextBirthday(today).value.value;
      var entry := Entry(rec.name, rec.birthday.value, WeekdayName(Weekday(next)));
      PushKeeps(order, bucket, h, (d, entry));
      if d !in bucket' {
        order' := order' + [d];
        bucket' := bucket'[d := []];
      }
      bucket' := bucket'[d := bucket'[d] + [entry]];
      h' := h + [(d, entry)];
    }
  }

  /** One pass of the first loop on a record computes that contact's hit. */
  lemma RecordHit(rec: Record, days: int, today: Date)
    requires rec.Valid() && ValidDate(today)
    ensures var delta := rec.DaysToBirthday(today);
      if delta.Err? then HitOf(rec.Value(), days, today) == Err(delta.error)
      else if delta.value.Some? && 0 <= delta.value.value <= days then
        rec.NextBirthday(today).Ok? && rec.NextBirthday(today).value.Some? &&
        HitOf(rec.Value(), days, today) ==
          Ok(Some((delta.value.value, Entry(rec.name, rec.birthday.value, WeekdayName(Weekday(rec.NextBirthday(today).value.value))))))
      else HitOf(rec.Value(), days, today) == Ok(None)
  {
  }

  /** `bucket.setdefault(d, []).append(e)` keeps the buckets in step with
      the hits seen so far. */
  lemma PushKeeps(order: seq<int>, bucket: map<int, seq<Entry>>, h: seq<(int, Entry)>, p: (int, Entry))
    requires order == Offsets(h)
    requires forall d :: d in bucket <==> d in order
    requires forall d | d in bucket :: bucket[d] == Bucket(h, d)
    ensures var order' := if p.0 in bucket then order else order + [p.0];
      var bucket' := if p.0 in bucket then bucket else bucket[p.0 := []];
      var pushed := bucket'[p.0 := bucket'[p.0] + [p.1]];
      order' == Offsets(h + [p]) &&
      (forall d :: d in pushed <==> d in order') &&
      (forall d | d in pushed :: pushed[d] == Bucket(h + [p], d))
  {
    var bucket' := if p.0 in bucket then bucket else bucket[p.0 := []];
    var pushed := bucket'[p.0 := bucket'[p.0] + [p.1]];
    RecordStep(h, p, p.0);
    forall d | d in pushed ensures pushed[d] == Bucket(h + [p], d) {
      RecordStep(h, p, d);
      if d != p.0 {
        assert pushed[d] == bucket[d];
        assert Bucket(h, d) + [] == Bucket(h, d);
      } else if p.0 !in bucket {
        BucketOutside(h, d);
      }
    }
  }

  /** The second loop and the final `sorted`: each bucket sorted by name,
      in the order of the distances given. */
  method SortBuckets(order: seq<int>, bucket: map<int, seq<Entry>>, ghost h: seq<(int, Entry)>)
    returns (groups: seq<Group>)
    requires forall d | d in order :: d in bucket && bucket[d] == Bucket(h, d)
    ensures groups == Groups(order, h)
  {
    groups := [];
    var j := 0;
    while j < |order|
      invariant 0 <= j <= |order|
      invariant |groups| == j
      invariant forall k :: 0 <= k < j ==> groups[k] == (order[k], SortedBucket(h, order[k]))
    {
      var d := order[j];
      var g := (d, SortBy(bucket[d], NameKey));
      assert g == (d, SortedBucket(h, d));
      groups := groups + [g];
      j := j + 1;
    }
    ghost var expected := Groups(order, h);
    assert forall k :: 0 <= k < |groups| ==> groups[k] == expected[k];
  }

  /** `upcoming_birthdays` over the records in dictionary order. */
  method UpcomingOfRecords(rs: seq<Record>, days: int, today: Date) returns (r: Result<seq<Group>, Error>)
    requires ValidDate(today) && forall k | 0 <= k < |rs| :: rs[k].Valid()
    ensures r == UpcomingOf(ContactsOf(rs), days, today)
  {
    var collected, h := CollectBuckets(rs, days, today);
    if collected.Err? {
      return Err(collected.error);
    }
    var (order, bucket) := collected.value;
    var groups := SortBuckets(order, bucket, h);
    r := Ok(SortBy(groups, GroupKey));
  }
}
