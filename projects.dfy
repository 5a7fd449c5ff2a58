/** Project records and the invariant of the in-memory project store. */
module Projects {
  import opened Http

  const DRAFT: string := "draft"
  const PROCESSING: string := "processing"

  /** One record of `projects_db`. `createdAt` is the `time.time()` value the
      record was created with. */
  datatype Project = Project(
    id: string,
    text: string,
    dialect: Option<string>,
    voice: Option<string>,
    status: string,
    createdAt: real)

  /** The statuses some handler writes. */
  predicate KnownStatus(s: string)
  {
    s == DRAFT || s == PROCESSING
  }

  predicate Distinct<T(==)>(s: seq<T>)
  {
    forall i, j :: 0 <= i < j < |s| ==> s[i] != s[j]
  }

  /** `p` and `q` agree on every field except possibly `status`. */
  predicate SameButStatus(p: Project, q: Project)
  {
    p.id == q.id && p.text == q.text && p.dialect == q.dialect &&
    p.voice == q.voice && p.createdAt == q.createdAt
  }

  /** The store invariant. `order` is the dictionary's insertion order: it
      lists every key exactly once. Every record is stored under its own id
      and carries a status some handler writes. */
  predicate WellFormed(db: map<string, Project>, order: seq<string>)
  {
    && Distinct(order)
    && (forall i :: 0 <= i < |order| ==> order[i] in db)
    && (forall k :: k in db ==> k in order)
    && (forall k :: k in db ==> db[k].id == k && KnownStatus(db[k].status))
  }

  /** No stored record disappears, and none goes from "processing" back to
      "draft". */
  predicate NeverRegresses(before: map<string, Project>, after: map<string, Project>)
  {
    forall k :: k in before ==>
      k in after && (before[k].status == PROCESSING ==> after[k].status == PROCESSING)
  }

  /** `list(projects_db.values())`: the records in insertion order. */
  function Listing(db: map<string, Project>, order: seq<string>): (r: seq<Project>)
    requires forall i :: 0 <= i < |order| ==> order[i] in db
    ensures |r| == |order|
    ensures forall i :: 0 <= i < |order| ==> r[i] == db[order[i]]
  {
    if order == [] then []
    else Listing(db, order[..|order| - 1]) + [db[order[|order| - 1]]]
  }

  /** `projects_db[id]['status'] = 'processing'`, on the dictionary's value. */
  function MarkProcessing(db: map<string, Project>, id: string): (r: map<string, Project>)
    requires id in db
    ensures r.Keys == db.Keys
    ensures r[id].status == PROCESSING && SameButStatus(db[id], r[id])
    ensures forall k :: k in db && k != id ==> r[k] == db[k]
  {
    db[id := db[id].(status := PROCESSING)]
  }

  /** A sequence without repetitions holds each of its elements once. */
  lemma {:induction false} DistinctMultiset<T>(s: seq<T>)
    requires Distinct(s)
    ensures |set x | x in s| == |s|
    ensures multiset(s) == multiset(set x | x in s)
  {
    if s != [] {
      var t, x := s[..|s| - 1], s[|s| - 1];
      assert s == t + [x];
      DistinctMultiset(t);
      var st := set y | y in t;
      assert x !in st;
      assert (set y | y in s) == st + {x};
      forall y ensures multiset(set z | z in s)[y] == (multiset(st) + multiset{x})[y] {
        if y == x {
        } else {
          assert y in (set z | z in s) <==> y in st;
        }
      }
      assert multiset(set z | z in s) == multiset(st) + multiset{x};
    }
  }

  /** The listing holds exactly the stored records, one per key. */
  lemma ListingMatchesStore(db: map<string, Project>, order: seq<string>)
    requires WellFormed(db, order)
    ensures |Listing(db, order)| == |db|
    ensures multiset(Listing(db, order)) == multiset(db.Values)
  {
    var r := Listing(db, order);
    DistinctMultiset(order);
    assert (set k | k in order) == db.Keys;
    assert Distinct(r) by {
      forall i, j | 0 <= i < j < |r| ensures r[i] != r[j] {
        assert r[i].id == order[i] && r[j].id == order[j];
      }
    }
    DistinctMultiset(r);
    assert (set p | p in r) == db.Values by {
      forall p | p in db.Values ensures p in r {
        var k :| k in db && db[k] == p;
        var i :| 0 <= i < |order| && order[i] == k;
        assert r[i] == p;
      }
    }
  }

  /** Inserting a fresh record appends it to the listing and leaves the rest
      of the listing as it was. */
  lemma ListingInsert(db: map<string, Project>, order: seq<string>, p: Project)
    requires forall i :: 0 <= i < |order| ==> order[i] in db
    requires p.id !in db
    ensures Listing(db[p.id := p], order + [p.id]) == Listing(db, order) + [p]
  {
  }

  /** Inserting a record under a fresh key with its own id and a known status
      keeps the invariant. */
  lemma InsertPreservesWellFormed(db: map<string, Project>, order: seq<string>, p: Project)
    requires WellFormed(db, order)
    requires p.id !in db && KnownStatus(p.status)
    ensures WellFormed(db[p.id := p], order + [p.id])
    ensures NeverRegresses(db, db[p.id := p])
  {
  }

  /** Marking a record as processing keeps the invariant and never regresses
      a status. */
  lemma MarkPreservesWellFormed(db: map<string, Project>, order: seq<string>, id: string)
    requires WellFormed(db, order) && id in db
    ensures WellFormed(MarkProcessing(db, id), order)
    ensures NeverRegresses(db, MarkProcessing(db, id))
  {
  }

  /** Generating twice leaves the same store as generating once. */
  lemma MarkProcessingIdempotent(db: map<string, Project>, id: string)
    requires id in db
    ensures MarkProcessing(MarkProcessing(db, id), id) == MarkProcessing(db, id)
  {
  }

  /** In the listing, marking changes only the entry of that record, and only
      its status. */
  lemma ListingMark(db: map<string, Project>, order: seq<string>, id: string)
    requires WellFormed(db, order) && id in db
    ensures |Listing(MarkProcessing(db, id), order)| == |Listing(db, order)|
    ensures forall i :: 0 <= i < |order| ==>
      var before, after := Listing(db, order)[i], Listing(MarkProcessing(db, id), order)[i];
      if before.id == id then after == before.(status := PROCESSING) else after == before
  {
  }
}
