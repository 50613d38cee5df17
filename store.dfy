/**
  The in-memory visit store: the module-level `visits` array and the `nextVisitId` counter,
  with the list, create, update and delete operations (the mock service's methods and the
  worker's GET/POST/PUT/DELETE `/visits` handlers run the same code).
 */
module Store {
  import opened Wrappers
  import opened Calendar
  import opened Visits

  predicate IdsUnique(vs: seq<Visit>) {
    forall i, j :: 0 <= i < j < |vs| ==> vs[i].id != vs[j].id
  }

  predicate HasId(vs: seq<Visit>, id: int) {
    exists i :: 0 <= i < |vs| && vs[i].id == id
  }

  /** `Math.max(...visits.map(v => v.id))` for a non-empty store. */
  function MaxId(vs: seq<Visit>): (m: int)
    requires |vs| > 0
    ensures forall i :: 0 <= i < |vs| ==> vs[i].id <= m
    ensures HasId(vs, m)
  {
    if |vs| == 1 then vs[0].id
    else
      var rest := MaxId(vs[1..]);
      if vs[0].id >= rest then vs[0].id else rest
  }

  /** `visits.findIndex(v => v.id === id)`: the first position holding that id. */
  function IndexOfId(vs: seq<Visit>, id: int): (r: Option<nat>)
    ensures r.None? <==> !HasId(vs, id)
    ensures r.Some? ==> r.value < |vs| && vs[r.value].id == id
                        && forall j :: 0 <= j < r.value ==> vs[j].id != id
  {
    if |vs| == 0 then None
    else if vs[0].id == id then Some(0)
    else match IndexOfId(vs[1..], id)
      case None => None
      case Some(k) => Some(k + 1)
  }

  /** `visits.filter(v => v.id !== id)`. */
  function WithoutId(vs: seq<Visit>, id: int): (r: seq<Visit>)
    ensures |r| <= |vs|
    ensures forall k :: 0 <= k < |r| ==> r[k].id != id && r[k] in vs
  {
    if |vs| == 0 then []
    else if vs[0].id != id then [vs[0]] + WithoutId(vs[1..], id)
    else WithoutId(vs[1..], id)
  }

  /** What remains is every record whose id differs. */
  lemma {:induction false} WithoutIdMembers(vs: seq<Visit>, id: int, v: Visit)
    ensures v in WithoutId(vs, id) <==> v in vs && v.id != id
  {
    if |vs| > 0 {
      WithoutIdMembers(vs[1..], id, v);
      assert vs == [vs[0]] + vs[1..];
    }
  }

  lemma HasIdSplit(vs: seq<Visit>, id: int)
    requires |vs| > 0
    ensures HasId(vs, id) <==> vs[0].id == id || HasId(vs[1..], id)
  {
    if HasId(vs[1..], id) {
      var k :| 0 <= k < |vs[1..]| && vs[1..][k].id == id;
      assert vs[k + 1].id == id;
    }
    if HasId(vs, id) && vs[0].id != id {
      var k :| 0 <= k < |vs| && vs[k].id == id;
      assert vs[1..][k - 1].id == id;
    }
  }

  /** The store shrinks exactly when some record has the id. */
  lemma {:induction false} WithoutIdShrinks(vs: seq<Visit>, id: int)
    ensures |WithoutId(vs, id)| < |vs| <==> HasId(vs, id)
  {
    if |vs| > 0 {
      HasIdSplit(vs, id);
      WithoutIdShrinks(vs[1..], id);
    }
  }

  /** Deleting keeps the remaining records in their order: it distributes over concatenation. */
  lemma {:induction false} WithoutIdAppend(a: seq<Visit>, b: seq<Visit>, id: int)
    ensures WithoutId(a + b, id) == WithoutId(a, id) + WithoutId(b, id)
  {
    if |a| == 0 {
      assert a + b == b;
    } else {
      assert (a + b)[1..] == a[1..] + b;
      WithoutIdAppend(a[1..], b, id);
    }
  }

  /** Deleting an id that is not there leaves the records exactly as they were. */
  lemma {:induction false} WithoutAbsentId(vs: seq<Visit>, id: int)
    requires !HasId(vs, id)
    ensures WithoutId(vs, id) == vs
  {
    if |vs| > 0 {
      WithoutAbsentId(vs[1..], id);
    }
  }

  lemma {:induction false} WithoutIdKeepsIdsUnique(vs: seq<Visit>, id: int)
    requires IdsUnique(vs)
    ensures IdsUnique(WithoutId(vs, id))
  {
    if |vs| > 0 {
      var rest := WithoutId(vs[1..], id);
      WithoutIdKeepsIdsUnique(vs[1..], id);
      forall j | 0 <= j < |rest|
        ensures rest[j].id != vs[0].id
      {
        WithoutIdMembers(vs[1..], id, rest[j]);
        var k :| 0 <= k < |vs[1..]| && vs[1..][k] == rest[j];
        assert vs[k + 1] == rest[j];
      }
    }
  }

  // ---------------------------------------------------------------------------
  // Listing order: date descending, then id descending

  /**
    a may be listed before b: a later date first, and on the same date the larger id first.
   */
  predicate ListedBefore(a: Visit, b: Visit) {
    Earlier(b.date, a.date) || (a.date == b.date && a.id >= b.id)
  }

  /**
    For valid dates the order is the one the comparator
    `new Date(b.date) - new Date(a.date) || (b.id - a.id)` sorts by: a's timestamp is later,
    or the timestamps are equal and a's id is not smaller.
   */
  lemma ListedBeforeIsComparatorOrder(a: Visit, b: Visit)
    requires ValidDate(a.date) && ValidDate(b.date)
    ensures ListedBefore(a, b)
        <==> DayNumber(b.date) - DayNumber(a.date) < 0
             || (DayNumber(b.date) - DayNumber(a.date) == 0 && b.id - a.id <= 0)
  {
    EarlierIsTimeOrder(b.date, a.date);
    if DayNumber(a.date) == DayNumber(b.date) {
      DayNumberInjective(a.date, b.date);
    }
  }

  predicate SortedForList(vs: seq<Visit>) {
    forall i, j :: 0 <= i < j < |vs| ==> ListedBefore(vs[i], vs[j])
  }

  /** A record listed before every record of a multiset is listed before every element of
      any sequence holding that multiset. */
  lemma ListedBeforeAll(x: Visit, r: seq<Visit>, m: multiset<Visit>)
    requires multiset(r) == m
    requires forall y :: y in m ==> ListedBefore(x, y)
    ensures forall j :: 0 <= j < |r| ==> ListedBefore(x, r[j])
  {
    forall j | 0 <= j < |r|
      ensures ListedBefore(x, r[j])
    {
      assert r[j] in multiset(r);
    }
  }

  /** Insertion into a listing. */
  function Insert(v: Visit, s: seq<Visit>): seq<Visit> {
    if |s| == 0 then [v]
    else if ListedBefore(v, s[0]) then [v] + s
    else [s[0]] + Insert(v, s[1..])
  }

  lemma {:induction false} InsertPermutes(v: Visit, s: seq<Visit>)
    ensures multiset(Insert(v, s)) == multiset(s) + multiset{v}
  {
    if |s| > 0 && !ListedBefore(v, s[0]) {
      InsertPermutes(v, s[1..]);
      assert s == [s[0]] + s[1..];
    }
  }

  /** The head of a sorted listing is listed before everything after it. */
  lemma HeadListedFirst(s: seq<Visit>, y: Visit)
    requires SortedForList(s) && |s| > 0 && y in s[1..]
    ensures ListedBefore(s[0], y)
  {
    var k :| 0 <= k < |s[1..]| && s[1..][k] == y;
    assert s[k + 1] == y;
  }

  lemma {:induction false} InsertSorted(v: Visit, s: seq<Visit>)
    requires SortedForList(s)
    ensures SortedForList(Insert(v, s))
  {
    if |s| > 0 && !ListedBefore(v, s[0]) {
      var rest := Insert(v, s[1..]);
      InsertSorted(v, s[1..]);
      InsertPermutes(v, s[1..]);
      var later := multiset(s[1..]) + multiset{v};
      forall y | y in later
        ensures ListedBefore(s[0], y)
      {
        if y != v {
          HeadListedFirst(s, y);
        }
      }
      ListedBeforeAll(s[0], rest, later);
    }
  }

  /** The copy `getVisits` returns: `[...visits].sort(comparator)`. */
  function SortForList(vs: seq<Visit>): (r: seq<Visit>)
    ensures SortedForList(r)
    ensures multiset(r) == multiset(vs)
  {
    if |vs| == 0 then []
    else
      var rest := SortForList(vs[1..]);
      InsertSorted(vs[0], rest);
      InsertPermutes(vs[0], rest);
      assert vs == [vs[0]] + vs[1..];
      Insert(vs[0], rest)
  }

  /** The seed records have ids 1 to 4, so the counter starts at 5. */
  lemma SeedIds(today: Date, createdAt: string)
    ensures var seed := Seed(today, createdAt);
            && IdsUnique(seed)
            && (forall i :: 0 <= i < |seed| ==> 1 <= seed[i].id <= 4)
            && MaxId(seed) == 4
  {
    var seed := Seed(today, createdAt);
    assert forall i :: 0 <= i < |seed| ==> seed[i].id == i + 1;
    var m := MaxId(seed);
    assert seed[3].id <= m;
  }

  /**
    Merging a form that keeps the record's id (no `id` key, or the same id) keeps the ids
    of the store distinct.
   */
  lemma MergeKeepingIdKeepsIdsUnique(vs: seq<Visit>, k: int, f: VisitForm)
    requires IdsUnique(vs) && 0 <= k < |vs|
    requires f.id.None? || f.id == Some(vs[k].id)
    ensures IdsUnique(vs[k := Overwrite(vs[k], f)])
  {
    var ws := vs[k := Overwrite(vs[k], f)];
    assert forall i :: 0 <= i < |ws| ==> ws[i].id == vs[i].id;
  }

  /**
    Merging a form whose `id` is another stored record's id leaves two records with that
    id: the spread does not protect the store's ids.
   */
  lemma MergeOtherIdDuplicates(vs: seq<Visit>, k: int, f: VisitForm)
    requires 0 <= k < |vs| && f.id.Some? && f.id.value != vs[k].id && HasId(vs, f.id.value)
    ensures !IdsUnique(vs[k := Overwrite(vs[k], f)])
  {
    var ws := vs[k := Overwrite(vs[k], f)];
    var m :| 0 <= m < |vs| && vs[m].id == f.id.value;
    assert m != k && ws[m].id == ws[k].id;
    if m < k {
      assert !(ws[m].id != ws[k].id);
    } else {
      assert !(ws[k].id != ws[m].id);
    }
  }

  /**
    The store. `Valid()` holds from the start: ids are unique, positive, and below the next
    id to be handed out. Create and delete keep it; an update keeps it unless its form
    carries the id of another record.
   */
  class VisitStore {
    var visits: seq<Visit>
    var nextVisitId: int

    ghost predicate Valid()
      reads this
    {
      IdsUnique(visits)
      && 1 <= nextVisitId
      && forall i :: 0 <= i < |visits| ==> 1 <= visits[i].id < nextVisitId
    }

    /**
      The store as the module starts: the seed records, and `nextVisitId` one above the
      largest seed id (or 1 for an empty seed).
     */
    constructor (today: Date, createdAt: string)
      ensures Valid()
      ensures visits == Seed(today, createdAt) && nextVisitId == 5
    {
      var seed := Seed(today, createdAt);
      SeedIds(today, createdAt);
      visits := seed;
      nextVisitId := if |seed| > 0 then MaxId(seed) + 1 else 1;
    }

    /** `getVisits` / `GET /visits`: a sorted copy; the store is not changed. */
    method List() returns (r: seq<Visit>)
      ensures SortedForList(r)
      ensures multiset(r) == multiset(visits)
    {
      r := SortForList(visits);
    }

    /**
      `createVisit` / `POST /visits`: the record gets `nextVisitId++` as its id and is
      appended; its id exceeds every id already stored.
     */
    method Create(data: VisitForm, createdAt: string) returns (v: Visit)
      modifies this
      ensures v == FromForm(data, old(nextVisitId), createdAt)
      ensures visits == old(visits) + [v]
      ensures nextVisitId == old(nextVisitId) + 1
      ensures old(Valid()) ==> Valid() && forall i :: 0 <= i < |old(visits)| ==> old(visits)[i].id < v.id
    {
      v := FromForm(data, nextVisitId, createdAt);
      nextVisitId := nextVisitId + 1;
      visits := visits + [v];
    }

    /**
      `updateVisit` / `PUT /visits/:id`: the form is merged into the first record with that
      id, in place; an unknown id gives None and changes nothing. The store stays valid when
      the form keeps the id, and gets a duplicate id when the form renumbers the record to
      another stored id.
     */
    method Update(id: int, data: VisitForm) returns (r: Option<Visit>)
      modifies this
      ensures nextVisitId == old(nextVisitId)
      ensures r.None? <==> !HasId(old(visits), id)
      ensures r.None? ==> visits == old(visits)
      ensures r.Some? ==>
        var k := IndexOfId(old(visits), id).value;
        && r.value == Overwrite(old(visits)[k], data)
        && r.value.createdAt == old(visits)[k].createdAt
        && visits == old(visits)[k := r.value]
      ensures old(Valid()) && (data.id.None? || data.id == Some(id)) ==> Valid()
      ensures r.Some? && data.id.Some? && data.id.value != id && HasId(old(visits), data.id.value)
              ==> !IdsUnique(visits)
    {
      var index := IndexOfId(visits, id);
      if index.None? {
        r := None;
      } else {
        var updated := Overwrite(visits[index.value], data);
        if Valid() && (data.id.None? || data.id == Some(id)) {
          MergeKeepingIdKeepsIdsUnique(visits, index.value, data);
        }
        if data.id.Some? && data.id.value != id && HasId(visits, data.id.value) {
          MergeOtherIdDuplicates(visits, index.value, data);
        }
        visits := visits[index.value := updated];
        r := Some(updated);
      }
    }

    /**
      `deleteVisit` / `DELETE /visits/:id`: removes every record with that id, keeps the
      others in order, and reports whether the store shrank, which is whether the id was
      present.
     */
    method Delete(id: int) returns (deleted: bool)
      modifies this
      ensures nextVisitId == old(nextVisitId)
      ensures old(Valid()) ==> Valid()
      ensures visits == WithoutId(old(visits), id)
      ensures deleted <==> HasId(old(visits), id)
      ensures !deleted ==> visits == old(visits)
    {
      var initialLength := |visits|;
      WithoutIdShrinks(visits, id);
      var remaining := WithoutId(visits, id);
      if Valid() {
        WithoutIdKeepsIdsUnique(visits, id);
        forall j | 0 <= j < |remaining|
          ensures 1 <= remaining[j].id < nextVisitId
        {
          WithoutIdMembers(visits, id, remaining[j]);
          var k :| 0 <= k < |visits| && visits[k] == remaining[j];
        }
      }
      if !HasId(visits, id) {
        WithoutAbsentId(visits, id);
      }
      visits := WithoutId(visits, id);
      deleted := |visits| < initialLength;
    }
  }
}
