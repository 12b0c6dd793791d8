/**
 * Collections of documents as the document store keeps them: a sequence in insertion
 * (natural) order, each document carrying its `_id`. The filters, look-ups and bulk
 * deletes of the repositories are the functions here.
 */
module Documents {
  import opened Wrappers
  import opened ObjectIds

  /** Timestamps, in whole microseconds; the millisecond truncation of BSON dates is not modelled. */
  type Time = int

  const MicrosPerSecond: int := 1_000_000

  datatype Doc<T> = Doc(id: Id, data: T)

  /** The elements of `s` that satisfy `p`, in their order: a `find(filter)`. */
  function Where<T(==)>(s: seq<T>, p: T -> bool): (r: seq<T>)
    ensures |r| <= |s|
    ensures forall x :: x in r ==> x in s && p(x)
    ensures forall x :: x in s && p(x) ==> x in r
    ensures multiset(r) <= multiset(s)
  {
    if s == [] then []
    else
      assert s == [s[0]] + s[1..];
      (if p(s[0]) then [s[0]] else []) + Where(s[1..], p)
  }

  /** The first element of `s` that satisfies `p`: a `find_one(filter)`. */
  function FindFirst<T(==)>(s: seq<T>, p: T -> bool): (r: Option<T>)
    ensures r.None? <==> forall x :: x in s ==> !p(x)
    ensures r.Some? ==> exists i :: 0 <= i < |s| && s[i] == r.value && p(s[i]) && forall j :: 0 <= j < i ==> !p(s[j])
  {
    if s == [] then None
    else if p(s[0]) then Some(s[0])
    else
      var r := FindFirst(s[1..], p);
      assert r.Some? ==> exists i :: 1 <= i < |s| && s[i] == r.value && p(s[i]) && forall j :: 0 <= j < i ==> !p(s[j]) by {
        if r.Some? {
          var i :| 0 <= i < |s[1..]| && s[1..][i] == r.value && p(s[1..][i]) && forall j :: 0 <= j < i ==> !p(s[1..][j]);
          assert forall j :: 1 <= j < i + 1 ==> !p(s[j]) by {
            forall j | 1 <= j < i + 1 ensures !p(s[j]) { assert s[j] == s[1..][j - 1]; }
          }
        }
      }
      r
  }

  predicate Distinct<T(==)>(s: seq<T>) {
    forall i, j :: 0 <= i < j < |s| ==> s[i] != s[j]
  }

  /** No two elements of `s` share a key: what a unique index guarantees. */
  predicate KeysDistinct<T, K(==)>(s: seq<T>, key: T -> K) {
    forall i, j :: 0 <= i < j < |s| ==> key(s[i]) != key(s[j])
  }

  function DocId<T>(d: Doc<T>): Id { d.id }

  ghost function IdsOf<T>(docs: seq<Doc<T>>): set<Id> {
    set d | d in docs :: d.id
  }

  /**
   * The collection invariant: `_id` is a unique key, every id is a valid ObjectId in the
   * store's spelling, and every id was handed out by the supply before it reached `next`.
   */
  ghost predicate Keyed<T>(docs: seq<Doc<T>>, next: nat) {
    && KeysDistinct(docs, DocId)
    && forall i :: 0 <= i < |docs| ==> IsCanonical(docs[i].id) && IdNumber(docs[i].id) < next
  }

  /**
   * `find_one({'_id': ObjectId(id)})` finds a document: `id` is a valid ObjectId string
   * and a document is stored under the identifier it spells.
   */
  ghost predicate HasId<T>(docs: seq<Doc<T>>, id: Id) {
    IsValidId(id) && Canonical(id) in IdsOf(docs)
  }

  /**
   * In a collection that keeps its invariant, a look-up by id finds the document of every
   * spelling of its identifier, upper-case hexadecimal letters included, and of no other string.
   */
  lemma HasIdAnySpelling<T>(docs: seq<Doc<T>>, next: nat, id: Id)
    requires Keyed(docs, next)
    ensures HasId(docs, id) <==> exists d :: d in docs && SameId(d.id, id)
  {
    if IsValidId(id) {
      CanonicalSpelling(id, id);
      if exists d :: d in docs && SameId(d.id, id) {
        var d :| d in docs && SameId(d.id, id);
        var i :| 0 <= i < |docs| && docs[i] == d;
        CanonicalSpelling(d.id, id);
        assert d.id == Canonical(d.id) == Canonical(id);
      }
    }
  }

  /** The filter `{key: k}`. */
  function KeyIs<T, K(==)>(key: T -> K, k: K): (p: T -> bool)
  {
    (x: T) => key(x) == k
  }

  /** The complement of the filter `{key: k}`: what a delete with that filter keeps. */
  function KeyIsNot<T, K(==)>(key: T -> K, k: K): (p: T -> bool)
  {
    (x: T) => key(x) != k
  }

  lemma KeyFilters<T, K>(key: T -> K, k: K)
    ensures forall x :: KeyIs(key, k)(x) <==> key(x) == k
    ensures forall x :: KeyIsNot(key, k)(x) <==> key(x) != k
  {
  }

  /** The documents whose `key` does not spell the identifier `id`, in any letter case. */
  function SpellsOtherId<T>(key: T -> Id, id: Id): (p: T -> bool)
  {
    (x: T) => !SameId(key(x), id)
  }

  lemma SpellingFilter<T>(key: T -> Id, id: Id)
    ensures forall x :: SpellsOtherId(key, id)(x) <==> !SameId(key(x), id)
  {
  }

  /** `find_one({'_id': id})`. */
  function FindById<T(==)>(docs: seq<Doc<T>>, id: Id): (r: Option<Doc<T>>)
    ensures r.Some? ==> r.value in docs && r.value.id == id
    ensures r.None? <==> id !in IdsOf(docs)
  {
    KeyFilters<Doc<T>, Id>(DocId, id);
    FindFirst(docs, KeyIs(DocId, id))
  }

  /** The documents whose id is not `id`: what `delete_one({'_id': id})` leaves. */
  function WithoutId<T(==)>(docs: seq<Doc<T>>, id: Id): (r: seq<Doc<T>>)
    ensures forall d :: d in r ==> d in docs && d.id != id
    ensures forall d :: d in docs && d.id != id ==> d in r
  {
    KeyFilters<Doc<T>, Id>(DocId, id);
    Where(docs, KeyIsNot(DocId, id))
  }

  /** The documents after `update_one({'_id': id}, ...)` replaced the data of that document. */
  function SetData<T>(docs: seq<Doc<T>>, id: Id, data: T): (r: seq<Doc<T>>)
    ensures |r| == |docs|
    ensures forall i :: 0 <= i < |r| ==> r[i].id == docs[i].id
  {
    seq(|docs|, i requires 0 <= i < |docs| => if docs[i].id == id then Doc(id, data) else docs[i])
  }

  /**
   * After the update the look-up by `id` finds the new data, every document with another
   * id is still there, and nothing else is.
   */
  lemma SetDataEffect<T>(docs: seq<Doc<T>>, id: Id, data: T)
    requires id in IdsOf(docs)
    ensures FindById(SetData(docs, id, data), id) == Some(Doc(id, data))
    ensures forall d :: d in SetData(docs, id, data) <==> (d in docs && d.id != id) || d == Doc(id, data)
  {
    var r := SetData(docs, id, data);
    var k :| 0 <= k < |docs| && docs[k].id == id;
    assert r[k] == Doc(id, data);
    var found := FindById(r, id);
    var j :| 0 <= j < |r| && r[j] == found.value;
    forall d ensures d in r <==> (d in docs && d.id != id) || d == Doc(id, data) {
      if d in docs && d.id != id {
        var i :| 0 <= i < |docs| && docs[i] == d;
        assert r[i] == d;
      }
    }
  }

  /** A filter over a sequence with one more element at the end. */
  lemma {:induction false} WhereAppend<T>(s: seq<T>, x: T, p: T -> bool)
    ensures Where(s + [x], p) == Where(s, p) + (if p(x) then [x] else [])
  {
    if s == [] {
      assert [x][1..] == [];
    } else {
      assert (s + [x])[1..] == s[1..] + [x];
      WhereAppend(s[1..], x, p);
    }
  }

  /** A filter that no element passes yields nothing. */
  lemma {:induction false} WhereNoneMatch<T>(s: seq<T>, p: T -> bool)
    requires forall x :: x in s ==> !p(x)
    ensures Where(s, p) == []
  {
    if s != [] {
      assert s[0] in s;
      WhereNoneMatch(s[1..], p);
    }
  }

  /** A filter that every element passes keeps the whole sequence. */
  lemma {:induction false} WhereAllTrue<T>(s: seq<T>, p: T -> bool)
    requires forall x :: x in s ==> p(x)
    ensures Where(s, p) == s
  {
    if s != [] {
      assert s == [s[0]] + s[1..];
      WhereAllTrue(s[1..], p);
    }
  }

  /** Appending an element whose key is new keeps a unique key unique. */
  lemma AppendKeepsKeysDistinct<T, K>(s: seq<T>, x: T, key: T -> K)
    requires KeysDistinct(s, key)
    requires forall y :: y in s ==> key(y) != key(x)
    ensures KeysDistinct(s + [x], key)
  {
    var r := s + [x];
    forall i, j | 0 <= i < j < |r| ensures key(r[i]) != key(r[j]) {
      if j == |s| {
        assert r[i] == s[i] && r[i] in s;
      } else {
        assert r[i] == s[i] && r[j] == s[j];
      }
    }
  }

  /** Filtering keeps a unique key unique. */
  lemma {:induction false} WhereKeepsKeysDistinct<T, K>(s: seq<T>, p: T -> bool, key: T -> K)
    requires KeysDistinct(s, key)
    ensures KeysDistinct(Where(s, p), key)
  {
    if s != [] {
      KeysDistinctTail(s, key);
      WhereKeepsKeysDistinct(s[1..], p, key);
      WhereStep(s, p);
      var rest := Where(s[1..], p);
      if p(s[0]) {
        var r := [s[0]] + rest;
        forall i, j | 0 <= i < j < |r| ensures key(r[i]) != key(r[j]) {
          assert r[j] == rest[j - 1] && rest[j - 1] in rest;
          if i > 0 {
            assert r[i] == rest[i - 1];
          }
        }
      }
    }
  }

  /** A `delete_many({key: k})`: what it keeps, and that the collection invariant survives it. */
  lemma DropByKey<T, K>(docs: seq<Doc<T>>, key: Doc<T> -> K, k: K, next: nat)
    requires Keyed(docs, next)
    ensures Keyed(Where(docs, KeyIsNot(key, k)), next)
    ensures forall d :: d in Where(docs, KeyIsNot(key, k)) <==> d in docs && key(d) != k
  {
    KeyFilters(key, k);
    WhereKeepsKeyed(docs, KeyIsNot(key, k), next);
  }

  /** Filtering a collection keeps its invariant. */
  lemma WhereKeepsKeyed<T>(docs: seq<Doc<T>>, p: Doc<T> -> bool, next: nat)
    requires Keyed(docs, next)
    ensures Keyed(Where(docs, p), next)
  {
    WhereKeepsKeysDistinct(docs, p, DocId);
    var r := Where(docs, p);
    forall i | 0 <= i < |r| ensures IsCanonical(r[i].id) && IdNumber(r[i].id) < next {
      assert r[i] in docs;
    }
  }

  /** A collection of one document keeps the invariant when its id is issued and canonical. */
  lemma SingletonKeyed<T>(d: Doc<T>, next: nat)
    requires IsCanonical(d.id) && IdNumber(d.id) < next
    ensures Keyed([d], next)
  {
  }

  /** The supply's next identifier is not in use, and appending a document under it keeps the invariant. */
  lemma FreshIdUnused<T>(docs: seq<Doc<T>>, next: nat, data: T)
    requires Keyed(docs, next) && next < IdSpace
    ensures IdOf(next) !in IdsOf(docs)
    ensures Keyed(docs + [Doc(IdOf(next), data)], next + 1)
  {
    var id := IdOf(next);
    forall d | d in docs ensures d.id != id {
      var i :| 0 <= i < |docs| && docs[i] == d;
      assert IdNumber(docs[i].id) < next;
    }
    var r := docs + [Doc(id, data)];
    forall i, j | 0 <= i < j < |r| ensures DocId(r[i]) != DocId(r[j]) {
      if j == |docs| {
        assert r[i] == docs[i];
        assert docs[i].id in IdsOf(docs);
      } else {
        assert r[i] == docs[i] && r[j] == docs[j];
      }
    }
  }

  /** Replacing the data of one document keeps the invariant. */
  lemma SetDataKeepsKeyed<T>(docs: seq<Doc<T>>, id: Id, data: T, next: nat)
    requires Keyed(docs, next)
    ensures Keyed(SetData(docs, id, data), next)
  {
    var r := SetData(docs, id, data);
    forall i, j | 0 <= i < j < |r| ensures DocId(r[i]) != DocId(r[j]) {
      assert DocId(r[i]) == DocId(docs[i]) && DocId(r[j]) == DocId(docs[j]);
    }
  }

  /** An element of a non-empty sequence is its head or lies in its tail. */
  lemma HeadOrTail<T>(s: seq<T>)
    requires s != []
    ensures forall x :: x in s <==> x == s[0] || x in s[1..]
  {
    assert s == [s[0]] + s[1..];
  }

  /** One step of a filter: the head if it passes, then the filtered tail. */
  lemma WhereStep<T>(s: seq<T>, p: T -> bool)
    requires s != []
    ensures Where(s, p) == (if p(s[0]) then [s[0]] else []) + Where(s[1..], p)
  {
  }

  /** The tail of a sequence with a unique key has a unique key, none equal to the head's. */
  lemma KeysDistinctTail<T, K>(s: seq<T>, key: T -> K)
    requires s != [] && KeysDistinct(s, key)
    ensures KeysDistinct(s[1..], key)
    ensures forall x :: x in s[1..] ==> key(x) != key(s[0])
  {
    var tail := s[1..];
    forall i, j | 0 <= i < j < |tail| ensures key(tail[i]) != key(tail[j]) {
      assert tail[i] == s[i + 1] && tail[j] == s[j + 1];
    }
    forall x | x in tail ensures key(x) != key(s[0]) {
      var j :| 0 <= j < |tail| && tail[j] == x;
      assert s[j + 1] == x;
    }
  }

  /** Under a unique key, deleting by key removes exactly one element when the key is present. */
  lemma {:induction false} DeleteByKeyCount<T, K>(s: seq<T>, key: T -> K, k: K)
    requires KeysDistinct(s, key)
    ensures |Where(s, KeyIsNot(key, k))| == if exists x :: x in s && key(x) == k then |s| - 1 else |s|
  {
    if s != [] {
      var tail := s[1..];
      KeysDistinctTail(s, key);
      DeleteByKeyCount(tail, key, k);
      WhereStep(s, KeyIsNot(key, k));
      KeyFilters(key, k);
      HeadOrTail(s);
      if key(s[0]) == k {
        assert s[0] in s;
        assert !exists x :: x in tail && key(x) == k;
      } else {
        assert (exists x :: x in s && key(x) == k) <==> (exists x :: x in tail && key(x) == k);
      }
    }
  }

  /** With unique ids, deleting by id removes exactly one document when the id is present. */
  lemma WithoutIdCount<T>(docs: seq<Doc<T>>, id: Id)
    requires KeysDistinct(docs, DocId)
    ensures |WithoutId(docs, id)| == if id in IdsOf(docs) then |docs| - 1 else |docs|
  {
    DeleteByKeyCount(docs, DocId, id);
    assert id in IdsOf(docs) <==> exists x :: x in docs && DocId(x) == id;
  }

  /** The distinct elements of `s` that satisfy `p`. */
  ghost function Matching<T>(s: seq<T>, p: T -> bool): set<T> {
    set x | x in s && p(x)
  }

  /** In a collection without duplicates, a filter finds exactly as many elements as satisfy it. */
  lemma {:induction false} WhereCountsMatches<T>(s: seq<T>, p: T -> bool)
    requires Distinct(s)
    ensures |Where(s, p)| == |Matching(s, p)|
  {
    if s != [] {
      var tail := s[1..];
      DistinctTail(s);
      WhereCountsMatches(tail, p);
      WhereStep(s, p);
      HeadOrTail(s);
      var rest := Matching(tail, p);
      var all := Matching(s, p);
      if p(s[0]) {
        assert all == {s[0]} + rest;
        assert s[0] !in rest;
      } else {
        assert all == rest;
      }
    }
  }

  lemma DistinctTail<T>(s: seq<T>)
    requires s != [] && Distinct(s)
    ensures Distinct(s[1..]) && s[0] !in s[1..]
    ensures forall x :: x in s ==> x == s[0] || x in s[1..]
  {
    var tail := s[1..];
    forall i, j | 0 <= i < j < |tail| ensures tail[i] != tail[j] {
      assert tail[i] == s[i + 1] && tail[j] == s[j + 1];
    }
    forall k | 0 <= k < |tail| ensures tail[k] != s[0] {
      assert tail[k] == s[k + 1];
    }
    assert s == [s[0]] + tail;
  }

  /** Documents with distinct ids are distinct. */
  lemma UniqueIdsDistinct<T>(docs: seq<Doc<T>>)
    requires KeysDistinct(docs, DocId)
    ensures Distinct(docs)
  {
    forall i, j | 0 <= i < j < |docs| ensures docs[i] != docs[j] {
      assert DocId(docs[i]) != DocId(docs[j]);
    }
  }
}
