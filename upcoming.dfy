/** What `AddressBook.upcoming_birthdays` returns, as a function of the
    contacts in dictionary order: the contacts whose next birthday is at most
    `days` days away, grouped by that distance, groups in ascending order of
    distance and each group sorted by lower-cased name. */
module Upcoming {
  import opened Wrappers
  import opened Text
  import opened Seqs
  import opened Sorting
  import opened Calendar
  import opened Contacts

  /** `(name, birthday text, weekday name)` for one contact. */
  datatype Entry = Entry(name: string, birthday: string, weekday: string)

  /** A distance in days and the entries at that distance. */
  type Group = (int, seq<Entry>)

  /** `strftime("%A")` in the C locale; w counts from Monday = 0. */
  function WeekdayName(w: int): string
    requires 0 <= w < 7
  {
    ["Monday", "Tuesday", "Wednesday", "Thursday", "Friday", "Saturday", "Sunday"][w]
  }

  /** One pass of the loop body: the contact's distance and entry when its
      next birthday is between 0 and `days` days away, None when it has no
      birthday or is further away, and the error either birthday query
      raises. */
  function HitOf(c: Contact, days: int, today: Date): Result<Option<(int, Entry)>, Error>
    requires ValidDate(today)
  {
    match DaysToBirthdayOf(c, today)
    case Err(e) => Err(e)
    case Ok(None) => Ok(None)
    case Ok(Some(delta)) =>
      if !(0 <= delta <= days) then Ok(None)
      else
        match NextBirthdayOf(c, today)
        case Err(e) => Err(e)
        case Ok(None) => Ok(None)
        case Ok(Some(n)) => Ok(Some((delta, Entry(c.name, c.birthday.value, WeekdayName(Weekday(n))))))
  }

  /** Every contact's hit, in contact order. */
  function HitsOf(cs: seq<Contact>, days: int, today: Date): (hs: seq<Result<Option<(int, Entry)>, Error>>)
    requires ValidDate(today)
    ensures |hs| == |cs|
    ensures forall k :: 0 <= k < |cs| ==> hs[k] == HitOf(cs[k], days, today)
  {
    seq(|cs|, k requires 0 <= k < |cs| => HitOf(cs[k], days, today))
  }

  /** The loop over hits: every hit in order, or the first error raised. */
  function Collect<P>(hs: seq<Result<Option<P>, Error>>): Result<seq<P>, Error> {
    if hs == [] then Ok([])
    else
      match Collect(hs[..|hs| - 1])
      case Err(e) => Err(e)
      case Ok(h) =>
        match hs[|hs| - 1]
        case Err(e) => Err(e)
        case Ok(None) => Ok(h)
        case Ok(Some(p)) => Ok(h + [p])
  }

  /** The loop over all contacts: every hit in contact order, or the first
      error raised. */
  function Scan(cs: seq<Contact>, days: int, today: Date): Result<seq<(int, Entry)>, Error>
    requires ValidDate(today)
  {
    Collect(HitsOf(cs, days, today))
  }

  /** The keys of `bucket` in insertion order. */
  function Offsets(h: seq<(int, Entry)>): seq<int> {
    if h == [] then [] else AppendNew(Offsets(h[..|h| - 1]), h[|h| - 1].0)
  }

  /** `bucket[d]` before sorting: the entries at distance d in contact order. */
  function Bucket(h: seq<(int, Entry)>, d: int): seq<Entry> {
    if h == [] then []
    else Bucket(h[..|h| - 1], d) + (if h[|h| - 1].0 == d then [h[|h| - 1].1] else [])
  }

  /** The sort key `t[0].lower()`. */
  function NameKey(e: Entry): seq<int> {
    Ord(Lower(e.name))
  }

  /** The sort key `kv[0]`. */
  function GroupKey(g: Group): seq<int> {
    [g.0]
  }

  /** `bucket[d].sort(key=lambda t: t[0].lower())`. */
  function SortedBucket(h: seq<(int, Entry)>, d: int): seq<Entry> {
    SortBy(Bucket(h, d), NameKey)
  }

  /** The buckets for the distances ds, each sorted by name. */
  function Groups(ds: seq<int>, h: seq<(int, Entry)>): (g: seq<Group>)
    ensures |g| == |ds|
    ensures forall i :: 0 <= i < |ds| ==> g[i] == (ds[i], SortedBucket(h, ds[i]))
  {
    seq(|ds|, i requires 0 <= i < |ds| => (ds[i], SortedBucket(h, ds[i])))
  }

  /** `dict(sorted(bucket.items(), key=lambda kv: kv[0]))` once every
      bucket is sorted. */
  function Arrange(h: seq<(int, Entry)>): seq<Group> {
    SortBy(Groups(Offsets(h), h), GroupKey)
  }

  /** The whole result: the groups ordered by distance. */
  function UpcomingOf(cs: seq<Contact>, days: int, today: Date): Result<seq<Group>, Error>
    requires ValidDate(today)
  {
    match Scan(cs, days, today)
    case Err(e) => Err(e)
    case Ok(h) => Ok(Arrange(h))
  }

  // ----- One contact -----

  /** A contact is listed at distance d exactly when its next birthday n
      exists and is d days away with d at most `days`; the entry shows its
      name, its stored birthday and n's weekday. The contact fails exactly
      when its next birthday does not exist. */
  lemma HitOfSpec(c: Contact, days: int, today: Date, d: int, e: Entry)
    requires ValidDate(today)
    ensures HitOf(c, days, today).Err? <==> NextBirthdayOf(c, today).Err?
    ensures HitOf(c, days, today) == Ok(Some((d, e))) <==>
      NextBirthdayOf(c, today).Ok? && NextBirthdayOf(c, today).value.Some? &&
      var n := NextBirthdayOf(c, today).value.value;
      d == Ordinal(n) - Ordinal(today) && d <= days &&
      e == Entry(c.name, c.birthday.value, WeekdayName(Weekday(n)))
  {
    DaysToBirthdayOfIsDistance(c, today);
  }

  // ----- The scan -----

  /** The loop fails exactly when some hit is an error, and then with the
      first such error. */
  lemma {:induction false} CollectError<P>(hs: seq<Result<Option<P>, Error>>)
    ensures Collect(hs).Err? <==> exists k :: 0 <= k < |hs| && hs[k].Err?
    ensures Collect(hs).Err? ==>
      exists k :: 0 <= k < |hs| && hs[k].Err? && Collect(hs).error == hs[k].error &&
        forall j :: 0 <= j < k ==> hs[j].Ok?
  {
    if hs != [] {
      var n := |hs| - 1;
      var init := hs[..n];
      CollectError(init);
      assert forall k :: 0 <= k < n ==> init[k] == hs[k];
    }
  }

  /** Once the loop fails on a prefix, it fails the same way on the whole. */
  lemma {:induction false} CollectErrorSticks<P>(hs: seq<Result<Option<P>, Error>>, i: nat)
    requires i <= |hs| && Collect(hs[..i]).Err?
    ensures Collect(hs) == Collect(hs[..i])
    decreases |hs|
  {
    if i < |hs| {
      var init := hs[..|hs| - 1];
      assert init[..i] == hs[..i];
      CollectErrorSticks(init, i);
    } else {
      assert hs[..i] == hs;
    }
  }

  /** One more pass adds that hit, or fails with its error. */
  lemma CollectStep<P>(hs: seq<Result<Option<P>, Error>>, i: nat, h: seq<P>)
    requires i < |hs| && Collect(hs[..i]) == Ok(h)
    ensures hs[i].Err? ==> Collect(hs[..i + 1]) == Err(hs[i].error)
    ensures hs[i] == Ok(None) ==> Collect(hs[..i + 1]) == Ok(h)
    ensures hs[i].Ok? && hs[i].value.Some? ==> Collect(hs[..i + 1]) == Ok(h + [hs[i].value.value])
  {
    assert hs[..i + 1][..i] == hs[..i];
  }

  /** Every hit collected is some pass's hit. */
  lemma {:induction false} CollectSound<P>(hs: seq<Result<Option<P>, Error>>, p: P) returns (k: nat)
    requires Collect(hs).Ok? && p in Collect(hs).value
    ensures k < |hs| && hs[k] == Ok(Some(p))
  {
    var n := |hs| - 1;
    var init := hs[..n];
    if p in Collect(init).value {
      k := CollectSound(init, p);
      assert init[k] == hs[k];
    } else {
      k := n;
    }
  }

  /** Every pass's hit is collected. */
  lemma {:induction false} CollectComplete<P>(hs: seq<Result<Option<P>, Error>>, k: nat, p: P)
    requires Collect(hs).Ok? && k < |hs| && hs[k] == Ok(Some(p))
    ensures p in Collect(hs).value
  {
    var n := |hs| - 1;
    var init := hs[..n];
    if k < n {
      assert init[k] == hs[k];
      CollectComplete(init, k, p);
    }
  }

  /** When hits of different passes carry different labels, so do the
      hits collected. */
  lemma {:induction false} CollectDistinct<P, U>(hs: seq<Result<Option<P>, Error>>, lab: P -> U)
    requires Collect(hs).Ok?
    requires forall a, b ::
      (0 <= a < b < |hs| && hs[a].Ok? && hs[a].value.Some? && hs[b].Ok? && hs[b].value.Some?) ==>
      lab(hs[a].value.value) != lab(hs[b].value.value)
    ensures forall i, j :: 0 <= i < j < |Collect(hs).value| ==>
      lab(Collect(hs).value[i]) != lab(Collect(hs).value[j])
  {
    if hs != [] {
      var n := |hs| - 1;
      var init := hs[..n];
      forall a, b | 0 <= a < b < |init| && init[a].Ok? && init[a].value.Some? &&
        init[b].Ok? && init[b].value.Some?
        ensures lab(init[a].value.value) != lab(init[b].value.value)
      {
        assert init[a] == hs[a] && init[b] == hs[b];
      }
      CollectDistinct(init, lab);
      var h0 := Collect(init).value;
      if hs[n].Ok? && hs[n].value.Some? {
        var p := hs[n].value.value;
        assert Collect(hs).value == h0 + [p];
        forall i | 0 <= i < |h0| ensures lab(h0[i]) != lab(p) {
          var k := CollectSound(init, h0[i]);
          assert init[k] == hs[k];
        }
      }
    }
  }

  /** The scan fails exactly when some contact fails, and then with the
      error of the first contact that fails. */
  lemma ScanError(cs: seq<Contact>, days: int, today: Date)
    requires ValidDate(today)
    ensures Scan(cs, days, today).Err? <==> exists k :: 0 <= k < |cs| && HitOf(cs[k], days, today).Err?
    ensures Scan(cs, days, today).Err? ==>
      exists k :: 0 <= k < |cs| && HitOf(cs[k], days, today).Err? &&
        Scan(cs, days, today).error == HitOf(cs[k], days, today).error &&
        forall j :: 0 <= j < k ==> HitOf(cs[j], days, today).Ok?
  {
    var hs := HitsOf(cs, days, today);
    CollectError(hs);
    if Scan(cs, days, today).Err? {
      var k :| 0 <= k < |hs| && hs[k].Err? && Collect(hs).error == hs[k].error &&
        forall j :: 0 <= j < k ==> hs[j].Ok?;
      assert forall j :: 0 <= j < k ==> HitOf(cs[j], days, today).Ok?;
    }
  }

  /** The hits are exactly the contacts' hits. */
  lemma ScanHits(cs: seq<Contact>, days: int, today: Date)
    requires ValidDate(today) && Scan(cs, days, today).Ok?
    ensures forall p :: p in Scan(cs, days, today).value <==>
      exists k :: 0 <= k < |cs| && HitOf(cs[k], days, today) == Ok(Some(p))
  {
    var hs := HitsOf(cs, days, today);
    forall p ensures p in Collect(hs).value <==> exists k :: 0 <= k < |cs| && HitOf(cs[k], days, today) == Ok(Some(p)) {
      if p in Collect(hs).value {
        var k := CollectSound(hs, p);
      }
      if exists k :: 0 <= k < |cs| && HitOf(cs[k], days, today) == Ok(Some(p)) {
        var k :| 0 <= k < |cs| && HitOf(cs[k], days, today) == Ok(Some(p));
        CollectComplete(hs, k, p);
      }
    }
  }

  /** Recording one more hit: its distance joins the order if new, and its
      entry goes last in its bucket. */
  lemma RecordStep(h: seq<(int, Entry)>, p: (int, Entry), d: int)
    ensures Offsets(h + [p]) == AppendNew(Offsets(h), p.0)
    ensures Bucket(h + [p], d) == Bucket(h, d) + (if p.0 == d then [p.1] else [])
  {
    assert (h + [p])[..|h|] == h;
  }

  /** A distance never seen has an empty bucket. */
  lemma {:induction false} BucketOutside(h: seq<(int, Entry)>, d: int)
    requires d !in Offsets(h)
    ensures Bucket(h, d) == []
  {
    if h != [] {
      BucketOutside(h[..|h| - 1], d);
    }
  }

  /** Every hit is between 0 and `days` days away. */
  lemma HitInRange(c: Contact, days: int, today: Date)
    requires ValidDate(today)
    ensures HitOf(c, days, today).Ok? && HitOf(c, days, today).value.Some? ==>
      0 <= HitOf(c, days, today).value.value.0 <= days
  {
  }

  // ----- Buckets -----

  /** The bucket keys are the distinct distances that occur, each once. */
  lemma {:induction false} OffsetsSpec(h: seq<(int, Entry)>)
    ensures NoDup(Offsets(h))
    ensures forall d :: d in Offsets(h) <==> exists i :: 0 <= i < |h| && h[i].0 == d
  {
    if h != [] {
      var n := |h| - 1;
      var init := h[..n];
      OffsetsSpec(init);
      assert Offsets(h) == AppendNew(Offsets(init), h[n].0);
      forall d ensures d in Offsets(h) <==> exists i :: 0 <= i < |h| && h[i].0 == d {
        if d in Offsets(h) && d != h[n].0 {
          var i :| 0 <= i < n && init[i].0 == d;
          assert h[i] == init[i];
        }
        if exists i :: 0 <= i < |h| && h[i].0 == d {
          var i :| 0 <= i < |h| && h[i].0 == d;
          if i < n {
            assert init[i] == h[i];
          }
        }
      }
    }
  }

  /** A bucket holds the entries at its distance, as often as they occur. */
  lemma {:induction false} BucketSpec(h: seq<(int, Entry)>, d: int)
    ensures forall e :: multiset(Bucket(h, d))[e] == multiset(h)[(d, e)]
  {
    if h != [] {
      var n := |h| - 1;
      BucketSpec(h[..n], d);
      assert h == h[..n] + [h[n]];
    }
  }

  /** A sorted bucket is sorted by name, holds exactly the entries at its
      distance, and keeps contact order among equal names. */
  lemma SortedBucketSpec(h: seq<(int, Entry)>, d: int)
    ensures SortedBy(SortedBucket(h, d), NameKey)
    ensures forall e :: multiset(SortedBucket(h, d))[e] == multiset(h)[(d, e)]
    ensures forall v :: WithKey(SortedBucket(h, d), NameKey, v) == WithKey(Bucket(h, d), NameKey, v)
  {
    BucketSpec(h, d);
    SortBySorted(Bucket(h, d), NameKey);
    forall v ensures WithKey(SortedBucket(h, d), NameKey, v) == WithKey(Bucket(h, d), NameKey, v) {
      SortByStable(Bucket(h, d), NameKey, v);
    }
  }

  /** Every group of the arranged result is the sorted bucket of a distance
      that occurs. */
  lemma ArrangedGroup(h: seq<(int, Entry)>, i: int)
    requires 0 <= i < |Arrange(h)|
    ensures Arrange(h)[i].0 in Offsets(h)
    ensures Arrange(h)[i].1 == SortedBucket(h, Arrange(h)[i].0)
  {
    var g := Groups(Offsets(h), h);
    var r := Arrange(h);
    assert r[i] in multiset(g);
    var k :| 0 <= k < |g| && g[k] == r[i];
  }

  /** Every distance that occurs has its group in the arranged result. */
  lemma ArrangedHasGroup(h: seq<(int, Entry)>, d: int)
    requires d in Offsets(h)
    ensures exists i :: 0 <= i < |Arrange(h)| && Arrange(h)[i] == (d, SortedBucket(h, d))
  {
    var ds := Offsets(h);
    var g := Groups(ds, h);
    var k :| 0 <= k < |ds| && ds[k] == d;
    assert g[k] in multiset(Arrange(h));
  }

  // ----- The result -----

  /** The groups come in strictly ascending order of distance, so each
      distance appears once. */
  lemma UpcomingAscending(cs: seq<Contact>, days: int, today: Date)
    requires ValidDate(today) && UpcomingOf(cs, days, today).Ok?
    ensures var r := UpcomingOf(cs, days, today).value;
      forall i, j :: 0 <= i < j < |r| ==> r[i].0 < r[j].0
  {
    var h := Scan(cs, days, today).value;
    var ds := Offsets(h);
    var g := Groups(ds, h);
    var r := Arrange(h);
    OffsetsSpec(h);
    forall i, j | 0 <= i < j < |g| ensures GroupKey(g[i]) != GroupKey(g[j]) {
      assert g[i].0 == ds[i] && g[j].0 == ds[j];
    }
    SortByStrict(g, GroupKey);
    SortBySorted(g, GroupKey);
    forall i, j | 0 <= i < j < |r| ensures r[i].0 < r[j].0 {
      assert LexLe(GroupKey(r[i]), GroupKey(r[j]));
      SingletonLexLe(r[i].0, r[j].0);
      assert GroupKey(r[i]) != GroupKey(r[j]);
    }
  }

  /** Each group: its distance d is between 0 and `days`; its entries are
      sorted by lower-cased name, are a permutation of the hits at distance
      d (so it is not empty), and entries with equal lower-cased names keep
      the contacts' order. */
  lemma UpcomingGroups(cs: seq<Contact>, days: int, today: Date, i: int)
    requires ValidDate(today) && UpcomingOf(cs, days, today).Ok?
    requires 0 <= i < |UpcomingOf(cs, days, today).value|
    ensures var h := Scan(cs, days, today).value;
      var grp := UpcomingOf(cs, days, today).value[i];
      0 <= grp.0 <= days && grp.1 != [] &&
      SortedBy(grp.1, NameKey) &&
      (forall e :: multiset(grp.1)[e] == multiset(h)[(grp.0, e)]) &&
      (forall v :: WithKey(grp.1, NameKey, v) == WithKey(Bucket(h, grp.0), NameKey, v))
  {
    var h := Scan(cs, days, today).value;
    ArrangedGroup(h, i);
    var d := Arrange(h)[i].0;
    SortedBucketSpec(h, d);
    OffsetsSpec(h);
    var m :| 0 <= m < |h| && h[m].0 == d;
    ScanInRange(cs, days, today);
    assert h[m] in h;
    assert h[m] == (d, h[m].1);
    assert multiset(SortedBucket(h, d))[h[m].1] > 0;
  }

  /** An entry is listed under distance d exactly when (d, entry) is a hit. */
  lemma ArrangedListed(h: seq<(int, Entry)>, d: int, e: Entry)
    ensures (exists i :: 0 <= i < |Arrange(h)| && Arrange(h)[i].0 == d && e in Arrange(h)[i].1) <==> (d, e) in h
  {
    var r := Arrange(h);
    SortedBucketSpec(h, d);
    if exists i :: 0 <= i < |r| && r[i].0 == d && e in r[i].1 {
      var i :| 0 <= i < |r| && r[i].0 == d && e in r[i].1;
      ArrangedGroup(h, i);
      assert e in multiset(SortedBucket(h, d));
      assert (d, e) in multiset(h);
    }
    if (d, e) in h {
      var m :| 0 <= m < |h| && h[m] == (d, e);
      OffsetsSpec(h);
      ArrangedHasGroup(h, d);
      var i :| 0 <= i < |r| && r[i] == (d, SortedBucket(h, d));
      assert e in multiset(SortedBucket(h, d));
    }
  }

  /** An entry is listed under distance d exactly when some contact's hit
      is (d, entry). */
  lemma UpcomingListed(cs: seq<Contact>, days: int, today: Date, d: int, e: Entry)
    requires ValidDate(today) && UpcomingOf(cs, days, today).Ok?
    ensures var r := UpcomingOf(cs, days, today).value;
      (exists i :: 0 <= i < |r| && r[i].0 == d && e in r[i].1) <==>
      (exists k :: 0 <= k < |cs| && HitOf(cs[k], days, today) == Ok(Some((d, e))))
  {
    var h := Scan(cs, days, today).value;
    ArrangedListed(h, d, e);
    ScanHits(cs, days, today);
  }

  /** Every hit is between 0 and `days` days away. */
  lemma ScanInRange(cs: seq<Contact>, days: int, today: Date)
    requires ValidDate(today) && Scan(cs, days, today).Ok?
    ensures forall p | p in Scan(cs, days, today).value :: 0 <= p.0 <= days
  {
    forall p | p in Scan(cs, days, today).value ensures 0 <= p.0 <= days {
      var k := CollectSound(HitsOf(cs, days, today), p);
      HitInRange(cs[k], days, today);
    }
  }

  /** The method fails exactly when some contact's next birthday does not
      exist, and then with the first such contact's error. */
  lemma UpcomingError(cs: seq<Contact>, days: int, today: Date)
    requires ValidDate(today)
    ensures UpcomingOf(cs, days, today).Err? <==>
      exists k :: 0 <= k < |cs| && NextBirthdayOf(cs[k], today).Err?
    ensures UpcomingOf(cs, days, today).Err? ==>
      exists k :: 0 <= k < |cs| && NextBirthdayOf(cs[k], today).Err? &&
        UpcomingOf(cs, days, today).error == NextBirthdayOf(cs[k], today).error
  {
    ScanError(cs, days, today);
    forall k | 0 <= k < |cs| ensures HitOf(cs[k], days, today).Err? <==> NextBirthdayOf(cs[k], today).Err? {
      HitOfSpec(cs[k], days, today, 0, Entry("", "", ""));
    }
    if UpcomingOf(cs, days, today).Err? {
      var k :| 0 <= k < |cs| && HitOf(cs[k], days, today).Err? &&
        Scan(cs, days, today).error == HitOf(cs[k], days, today).error &&
        forall j :: 0 <= j < k ==> HitOf(cs[j], days, today).Ok?;
      DaysToBirthdayOfIsDistance(cs[k], today);
    }
  }

  // ----- Each contact is listed at most once -----

  /** Contacts with pairwise different names. */
  predicate NamesDistinct(cs: seq<Contact>) {
    forall i, j :: 0 <= i < j < |cs| ==> cs[i].name != cs[j].name
  }

  /** No name is listed at two different places of the result. */
  predicate ListedOnce(r: seq<Group>) {
    forall i, j, i2, j2 ::
      (0 <= i < |r| && 0 <= j < |r[i].1| && 0 <= i2 < |r| && 0 <= j2 < |r[i2].1| &&
       r[i].1[j].name == r[i2].1[j2].name) ==>
      i == i2 && j == j2
  }

  /** A contact's hit is listed under the contact's name. */
  lemma HitName(c: Contact, days: int, today: Date)
    requires ValidDate(today) && HitOf(c, days, today).Ok? && HitOf(c, days, today).value.Some?
    ensures HitOf(c, days, today).value.value.1.name == c.name
  {
    var p := HitOf(c, days, today).value.value;
    HitOfSpec(c, days, today, p.0, p.1);
  }

  /** One pass per contact: when the contacts' names differ, so do the
      names of the hits recorded. */
  lemma ScanNamesDistinct(cs: seq<Contact>, days: int, today: Date)
    requires ValidDate(today) && Scan(cs, days, today).Ok? && NamesDistinct(cs)
    ensures forall i, j :: 0 <= i < j < |Scan(cs, days, today).value| ==>
      Scan(cs, days, today).value[i].1.name != Scan(cs, days, today).value[j].1.name
  {
    var hs := HitsOf(cs, days, today);
    var lab := (p: (int, Entry)) => p.1.name;
    forall a, b | 0 <= a < b < |hs| && hs[a].Ok? && hs[a].value.Some? && hs[b].Ok? && hs[b].value.Some?
      ensures lab(hs[a].value.value) != lab(hs[b].value.value)
    {
      HitName(cs[a], days, today);
      HitName(cs[b], days, today);
    }
    CollectDistinct(hs, lab);
  }

  /** Every listed entry is a hit at its group's distance. */
  lemma ListedHit(cs: seq<Contact>, days: int, today: Date, i: int, j: int) returns (a: nat)
    requires ValidDate(today) && UpcomingOf(cs, days, today).Ok?
    requires 0 <= i < |UpcomingOf(cs, days, today).value|
    requires 0 <= j < |UpcomingOf(cs, days, today).value[i].1|
    ensures a < |Scan(cs, days, today).value|
    ensures Scan(cs, days, today).value[a] ==
      (UpcomingOf(cs, days, today).value[i].0, UpcomingOf(cs, days, today).value[i].1[j])
  {
    var h := Scan(cs, days, today).value;
    var grp := UpcomingOf(cs, days, today).value[i];
    UpcomingGroups(cs, days, today, i);
    assert grp.1[j] in multiset(grp.1);
    assert (grp.0, grp.1[j]) in multiset(h);
    a :| 0 <= a < |h| && h[a] == (grp.0, grp.1[j]);
  }

  /** When the contacts' names differ, each contact is listed at most once:
      under one distance, at one position. */
  lemma UpcomingOnce(cs: seq<Contact>, days: int, today: Date)
    requires ValidDate(today) && UpcomingOf(cs, days, today).Ok? && NamesDistinct(cs)
    ensures ListedOnce(UpcomingOf(cs, days, today).value)
  {
    var h := Scan(cs, days, today).value;
    var r := UpcomingOf(cs, days, today).value;
    ScanNamesDistinct(cs, days, today);
    UpcomingAscending(cs, days, today);
    forall i, j, i2, j2 | 0 <= i < |r| && 0 <= j < |r[i].1| && 0 <= i2 < |r| && 0 <= j2 < |r[i2].1| &&
      r[i].1[j].name == r[i2].1[j2].name
      ensures i == i2 && j == j2
    {
      var a := ListedHit(cs, days, today, i, j);
      var b := ListedHit(cs, days, today, i2, j2);
      assert a == b;
      assert r[i].0 == r[i2].0;
      if j != j2 {
        UpcomingGroups(cs, days, today, i);
        if j < j2 {
          CountsTwice(r[i].1, j, j2);
        } else {
          CountsTwice(r[i].1, j2, j);
        }
        assert multiset(h)[h[a]] >= 2;
        var c := OtherOccurrence(h, a);
      }
    }
  }
}
