/** `Note` and `NoteBook`: notes with tags, under the stripped, lower-cased
    title, in insertion order. */
module Notes {
  import opened Wrappers
  import opened Text
  import opened Seqs
  import opened Sorting

  /** What one argument of `add_tags` contributes: the tag stripped and
      lower-cased, unless it is blank. */
  function NewTag(t: string): set<string> {
    if Trim(t) != "" then {Key(t)} else {}
  }

  /** The tags `add_tags(*ts)` adds. */
  function NormalTags(ts: seq<string>): set<string> {
    UnionOf(ts, NewTag)
  }

  /** A tag is added exactly when some non-blank tag given normalises to it. */
  lemma NormalTagsMembers(ts: seq<string>, x: string)
    ensures x in NormalTags(ts) <==> exists t | t in ts :: Trim(t) != "" && Key(t) == x
  {
    if x in NormalTags(ts) {
      var k := UnionOfSource(ts, NewTag, x);
      assert ts[k] in ts && Trim(ts[k]) != "" && Key(ts[k]) == x;
    }
    if exists t | t in ts :: Trim(t) != "" && Key(t) == x {
      var t :| t in ts && Trim(t) != "" && Key(t) == x;
      var k :| 0 <= k < |ts| && ts[k] == t;
      UnionOfPart(ts, NewTag, k);
      assert x in NewTag(t);
    }
  }

  /** Every tag added is non-empty and already in normal form. */
  lemma NormalTagsAreNormal(ts: seq<string>)
    ensures forall x | x in NormalTags(ts) :: x != "" && Key(x) == x
  {
    forall x | x in NormalTags(ts) ensures x != "" && Key(x) == x {
      NormalTagsMembers(ts, x);
      var t :| t in ts && Trim(t) != "" && Key(t) == x;
      KeyIdempotent(t);
      assert |Lower(Trim(t))| == |Trim(t)|;
    }
  }

  /** The tags of a longer list: those of the shorter one and the last
      tag's normal form if it is not blank. */
  lemma NormalTagsSnoc(ts: seq<string>, t: string)
    ensures NormalTags(ts + [t]) == NormalTags(ts) + NewTag(t)
  {
    UnionOfSnoc(ts, NewTag, t);
  }

  /** Removing a tag right after adding it leaves the other tags as they
      were, whatever its spelling. */
  lemma RemoveAfterAdd(tags: set<string>, t: string, u: string)
    requires Trim(t) != "" && Key(u) == Key(t)
    ensures Key(u) in tags + NormalTags([t])
    ensures (tags + NormalTags([t])) - {Key(u)} == tags - {Key(t)}
  {
    NormalTagsSnoc([], t);
    assert [] + [t] == [t];
  }

  class Note {
    const title: string
    const text: string
    var tags: set<string>
    /** `created`, as a timestamp. */
    const created: int

    constructor (title: string, text: string, tags: set<string>, created: int)
      ensures this.title == title && this.text == text && this.tags == tags && this.created == created
    {
      this.title := title;
      this.text := text;
      this.tags := tags;
      this.created := created;
    }

    /** `add_tags(*ts)`: the tags gain the stripped, lower-cased form of
        every tag that is not blank. */
    method AddTags(ts: seq<string>)
      modifies this
      ensures tags == old(tags) + NormalTags(ts)
    {
      var i := 0;
      while i < |ts|
        invariant 0 <= i <= |ts|
        invariant tags == old(tags) + NormalTags(ts[..i])
      {
        var t := ts[i];
        NormalTagsSnoc(ts[..i], t);
        assert ts[..i + 1] == ts[..i] + [t];
        var stripped := Trim(t);
        if stripped != "" {
          tags := tags + {Key(t)};
        }
        i := i + 1;
      }
      assert ts[..i] == ts;
    }

    /** `remove_tag`: removes the stripped, lower-cased tag and says
        whether it was there. */
    method RemoveTag(tag: string) returns (removed: bool)
      modifies this
      ensures removed <==> Key(tag) in old(tags)
      ensures tags == old(tags) - {Key(tag)}
    {
      var t := Key(tag);
      if t in tags {
        tags := tags - {t};
        return true;
      }
      return false;
    }
  }

  /** `q in n.text.lower() or q in n.title.lower()`. */
  predicate TextHit(n: Note, q: string) {
    Contains(Lower(n.text), q) || Contains(Lower(n.title), q)
  }

  /** The notes of ns whose text or title contains q, in order. */
  function TextMatching(ns: seq<Note>, q: string): (r: seq<Note>)
    ensures IsSubseq(r, ns)
    ensures forall n | n in r :: n in ns && TextHit(n, q)
    ensures forall n | n in ns && TextHit(n, q) :: n in r
  {
    if ns == [] then []
    else
      var rest := TextMatching(ns[1..], q);
      if TextHit(ns[0], q) then
        assert ([ns[0]] + rest)[1..] == rest;
        [ns[0]] + rest
      else
        SubseqDropFront(rest, ns);
        rest
  }

  /** The notes of ns that carry tag t, in order. */
  function TagMatching(ns: seq<Note>, t: string): (r: seq<Note>)
    reads ns
    ensures IsSubseq(r, ns)
    ensures forall n | n in r :: n in ns && t in n.tags
    ensures forall n | n in ns && t in n.tags :: n in r
  {
    if ns == [] then []
    else
      var rest := TagMatching(ns[1..], t);
      if t in ns[0].tags then
        assert ([ns[0]] + rest)[1..] == rest;
        [ns[0]] + rest
      else
        SubseqDropFront(rest, ns);
        rest
  }

  /** The sort key `n.created`. */
  function CreatedKey(n: Note): seq<int> {
    [n.created]
  }

  /** The sort key `n.title.lower()`. */
  function TitleKey(n: Note): seq<int> {
    Ord(Lower(n.title))
  }

  class NoteBook {
    /** The dictionary's keys in insertion order, and the dictionary. */
    var keys: seq<string>
    var data: map<string, Note>

    /** Each key once, the same keys in both, and every note stored under
        its stripped, lower-cased title. */
    ghost predicate Valid()
      reads this
    {
      NoDup(keys) &&
      (forall k :: k in keys <==> k in data) &&
      (forall k | k in data :: Key(data[k].title) == k)
    }

    constructor ()
      ensures Valid() && keys == [] && data == map[]
    {
      keys := [];
      data := map[];
    }

    /** `data.values()`. */
    function Notes(): (ns: seq<Note>)
      reads this
      requires forall k | k in keys :: k in data
      ensures |ns| == |keys|
      ensures forall i :: 0 <= i < |keys| ==> ns[i] == data[keys[i]]
    {
      InOrder(keys, data)
    }

    /** `add`: KeyError when a note with the same stripped, lower-cased
        title exists; otherwise the note is stored under it, last in order,
        and looking up its title finds it. */
    method Add(n: Note) returns (o: Outcome<Error>)
      requires Valid()
      modifies this
      ensures Valid()
      ensures Key(n.title) in old(data) ==> o == Fail(AlreadyExists) && keys == old(keys) && data == old(data)
      ensures Key(n.title) !in old(data) ==>
        o == Pass && keys == old(keys) + [Key(n.title)] && data == old(data)[Key(n.title) := n]
      ensures o.Pass? ==> GetNote(n.title) == Ok(n)
    {
      var k := Key(n.title);
      if k in data {
        return Fail(AlreadyExists);
      }
      keys := keys + [k];
      data := data[k := n];
      o := Pass;
    }

    /** `get_note`: the note stored under the stripped, lower-cased title,
        or KeyError. */
    function GetNote(title: string): Result<Note, Error>
      reads this
    {
      var k := Key(title);
      if k in data then Ok(data[k]) else Err(NotFound)
    }

    /** Lookup ignores case and surrounding whitespace, and finds a note
        exactly when one has that title up to case and whitespace. */
    lemma GetNoteSpec(title: string)
      requires Valid()
      ensures GetNote(title).Ok? ==> Key(GetNote(title).value.title) == Key(title)
      ensures GetNote(title).Ok? <==> exists n | n in Notes() :: Key(n.title) == Key(title)
      ensures forall other :: Key(other) == Key(title) ==> GetNote(other) == GetNote(title)
    {
      if exists n | n in Notes() :: Key(n.title) == Key(title) {
        var n :| n in Notes() && Key(n.title) == Key(title);
        var i :| 0 <= i < |keys| && Notes()[i] == n;
        assert data[keys[i]] == n;
      }
      if GetNote(title).Ok? {
        var i :| 0 <= i < |keys| && keys[i] == Key(title);
        assert Notes()[i] == data[Key(title)];
      }
    }

    /** `remove`: removes the note under the stripped, lower-cased title
        and says whether there was one; the other notes keep their order. */
    method Remove(title: string) returns (removed: bool)
      requires Valid()
      modifies this
      ensures Valid()
      ensures removed <==> Key(title) in old(data)
      ensures data == old(data) - {Key(title)}
      ensures keys == RemoveFirst(old(keys), Key(title))
      ensures GetNote(title) == Err(NotFound)
    {
      var k := Key(title);
      removed := k in data;
      RemoveFirstKeepsNoDup(keys, k);
      RemoveFirstMembers(keys, k);
      keys := RemoveFirst(keys, k);
      data := data - {k};
    }

    /** `search_text`: the notes, in dictionary order, whose text or title
        contains the lower-cased, stripped query ignoring case. */
    function SearchText(query: string): (r: seq<Note>)
      reads this
      requires Valid()
      ensures IsSubseq(r, Notes())
      ensures forall n | n in r :: n in Notes() && TextHit(n, Trim(Lower(query)))
      ensures forall n | n in Notes() && TextHit(n, Trim(Lower(query))) :: n in r
    {
      TextMatching(Notes(), Key(query))
    }

    /** `search_tag`: the notes, in dictionary order, that carry the
        lower-cased, stripped tag. */
    function SearchTag(tag: string): (r: seq<Note>)
      reads this, data.Values
      requires Valid()
      ensures IsSubseq(r, Notes())
      ensures forall n | n in r :: n in Notes() && Trim(Lower(tag)) in n.tags
      ensures forall n | n in Notes() && Trim(Lower(tag)) in n.tags :: n in r
    {
      TagMatching(Notes(), Key(tag))
    }

    /** No two notes have the same lower-cased title, since the stripped
        lower-cased title is the key. */
    lemma TitlesDiffer()
      requires Valid()
      ensures forall i, j :: 0 <= i < j < |Notes()| ==> TitleKey(Notes()[i]) != TitleKey(Notes()[j])
    {
      var ns := Notes();
      forall i, j | 0 <= i < j < |ns| ensures TitleKey(ns[i]) != TitleKey(ns[j]) {
        assert Key(ns[i].title) == keys[i] && Key(ns[j].title) == keys[j];
        if TitleKey(ns[i]) == TitleKey(ns[j]) {
          OrdInjective(Lower(ns[i].title), Lower(ns[j].title));
        }
      }
    }

    /** `all(sort_by)`: every note once; by "created" in creation order,
        notes created at the same moment keeping dictionary order; by
        anything else in title order, where no two notes tie. */
    function All(sortBy: string): (r: seq<Note>)
      reads this
      requires Valid()
      ensures multiset(r) == multiset(Notes())
      ensures sortBy == "created" ==>
        SortedBy(r, CreatedKey) && forall v :: WithKey(r, CreatedKey, v) == WithKey(Notes(), CreatedKey, v)
      ensures sortBy != "created" ==>
        SortedBy(r, TitleKey) && forall i, j :: 0 <= i < j < |r| ==> TitleKey(r[i]) != TitleKey(r[j])
    {
      var ns := Notes();
      if sortBy == "created" then
        forall v ensures WithKey(SortBy(ns, CreatedKey), CreatedKey, v) == WithKey(ns, CreatedKey, v) {
          SortByStable(ns, CreatedKey, v);
        }
        SortBySorted(ns, CreatedKey);
        SortBy(ns, CreatedKey)
      else
        TitlesDiffer();
        SortByStrict(ns, TitleKey);
        SortBySorted(ns, TitleKey);
        SortBy(ns, TitleKey)
    }
  }
}
