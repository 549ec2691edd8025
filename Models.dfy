/** The two tables the API reads and writes, and the queries it runs on
    them: ordering by id, filtering by category, removing one id. */
module Models {

  import opened Wrappers

  /** A row of the category table; `kind` is the column named `type`. */
  datatype Category = Category(id: int, kind: string)

  /** A row of the question table. Its formatted form in a response carries
      the same fields, so the model lets a question stand for it. */
  datatype Question = Question(id: int, question: string, answer: string, category: int, difficulty: int)

  /** The ids of a list of questions. */
  function Ids(qs: seq<Question>): (ids: set<int>)
    ensures forall q :: q in qs ==> q.id in ids
    ensures forall id :: id in ids ==> exists q :: q in qs && q.id == id
  {
    set q | q in qs :: q.id
  }

  /** Ids are a primary key: no two rows share one. */
  ghost predicate DistinctIds(qs: seq<Question>)
  {
    forall i, j :: 0 <= i < j < |qs| ==> qs[i].id != qs[j].id
  }

  ghost predicate DistinctCategoryIds(cats: seq<Category>)
  {
    forall i, j :: 0 <= i < j < |cats| ==> cats[i].id != cats[j].id
  }

  /** Ascending id order, as `order_by(Question.id)` returns rows. */
  ghost predicate AscendingIds(qs: seq<Question>)
  {
    forall i, j :: 0 <= i < j < |qs| ==> qs[i].id <= qs[j].id
  }

  // ---------------------------------------------------------------------
  // order_by(Question.id)

  /** Puts `q` into an id-ordered list after every row whose id is not larger. */
  function InsertById(q: Question, qs: seq<Question>): (r: seq<Question>)
    requires AscendingIds(qs)
    ensures AscendingIds(r)
    ensures multiset(r) == multiset(qs) + multiset{q}
    ensures |r| == |qs| + 1
  {
    if qs == [] then [q]
    else if q.id < qs[0].id then
      PrependAscending(q, qs);
      [q] + qs
    else
      assert qs == [qs[0]] + qs[1..];
      var rest := InsertById(q, qs[1..]);
      forall x | x in rest ensures qs[0].id <= x.id {
        assert x in multiset(rest);
        if x != q {
          assert x in multiset(qs[1..]);
        }
      }
      PrependAscending(qs[0], rest);
      [qs[0]] + rest
  }

  lemma PrependAscending(h: Question, s: seq<Question>)
    requires AscendingIds(s)
    requires forall x :: x in s ==> h.id <= x.id
    ensures AscendingIds([h] + s)
  {
  }

  /** The rows of `qs` in ascending id order. */
  function OrderById(qs: seq<Question>): (r: seq<Question>)
    ensures AscendingIds(r)
    ensures multiset(r) == multiset(qs)
    ensures |r| == |qs|
  {
    if qs == [] then []
    else
      assert qs == [qs[0]] + qs[1..];
      InsertById(qs[0], OrderById(qs[1..]))
  }

  /** Ordering keeps exactly the same rows. */
  lemma OrderByIdSameRows(qs: seq<Question>)
    ensures forall q :: q in OrderById(qs) <==> q in qs
    ensures Ids(OrderById(qs)) == Ids(qs)
  {
    var r := OrderById(qs);
    forall q ensures q in r <==> q in qs {
      assert q in r <==> q in multiset(r);
      assert q in qs <==> q in multiset(qs);
    }
  }

  /** Two id-ordered lists with the same rows and distinct ids are equal:
      with a primary key, the order `order_by(Question.id)` returns is unique. */
  lemma {:induction false} AscendingUnique(a: seq<Question>, b: seq<Question>)
    requires AscendingIds(a) && AscendingIds(b) && DistinctIds(a)
    requires multiset(a) == multiset(b)
    ensures a == b
  {
    if a != [] {
      assert |a| == |multiset(a)| == |b|;
      assert a[0] in multiset(b) && b[0] in multiset(a);
      HeadIsLeast(a, b[0]);
      HeadIsLeast(b, a[0]);
      SameIdSameRow(a, 0, b[0]);
      assert a == [a[0]] + a[1..] && b == [b[0]] + b[1..];
      assert multiset(a[1..]) == multiset(a) - multiset{a[0]};
      assert multiset(b[1..]) == multiset(b) - multiset{b[0]};
      TailKeepsOrder(a);
      TailKeepsOrder(b);
      AscendingUnique(a[1..], b[1..]);
    }
  }

  lemma TailKeepsOrder(a: seq<Question>)
    requires a != [] && AscendingIds(a)
    ensures AscendingIds(a[1..])
    ensures DistinctIds(a) ==> DistinctIds(a[1..])
  {
  }

  /** In an id-ordered list the head's id is not above any later id, and
      the tail is id-ordered too. */
  lemma HeadFirst(qs: seq<Question>)
    requires qs != [] && AscendingIds(qs)
    ensures forall x :: x in qs[1..] ==> qs[0].id <= x.id
    ensures AscendingIds(qs[1..])
  {
  }

  /** One step of an order-keeping filter: keeping or dropping the head of
      an id-ordered list leaves an id-ordered list. */
  lemma FilterStep(qs: seq<Question>, rest: seq<Question>)
    requires qs != []
    requires forall x :: x in rest ==> x in qs[1..]
    requires AscendingIds(qs[1..]) ==> AscendingIds(rest)
    ensures AscendingIds(qs) ==> AscendingIds(rest) && AscendingIds([qs[0]] + rest)
  {
    if AscendingIds(qs) {
      HeadFirst(qs);
      PrependAscending(qs[0], rest);
    }
  }

  lemma HeadIsLeast(a: seq<Question>, x: Question)
    requires AscendingIds(a) && x in a
    ensures a[0].id <= x.id
  {
  }

  lemma SameIdSameRow(a: seq<Question>, i: int, x: Question)
    requires DistinctIds(a) && 0 <= i < |a| && x in a && x.id == a[i].id
    ensures x == a[i]
  {
  }

  /** A list that is already in id order is its own ordering. */
  lemma OrderByIdOfAscending(qs: seq<Question>)
    requires AscendingIds(qs) && DistinctIds(qs)
    ensures OrderById(qs) == qs
  {
  }

  // ---------------------------------------------------------------------
  // filter(Question.category == c)

  /** The rows of `qs` whose category is `c`, in their original order. */
  function InCategory(qs: seq<Question>, c: int): (r: seq<Question>)
    ensures forall q :: q in r <==> q in qs && q.category == c
    ensures |r| <= |qs|
    ensures AscendingIds(qs) ==> AscendingIds(r)
  {
    if qs == [] then []
    else
      var rest := InCategory(qs[1..], c);
      assert forall q :: q in qs <==> q == qs[0] || q in qs[1..];
      FilterStep(qs, rest);
      if qs[0].category == c then
        [qs[0]] + rest
      else
        rest
  }

  /** The rows of `qs` whose id is not in `excluded`, in their original order. */
  function NotIn(qs: seq<Question>, excluded: seq<int>): (r: seq<Question>)
    ensures forall q :: q in r <==> q in qs && q.id !in excluded
    ensures |r| <= |qs|
    ensures AscendingIds(qs) ==> AscendingIds(r)
  {
    if qs == [] then []
    else
      var rest := NotIn(qs[1..], excluded);
      assert forall q :: q in qs <==> q == qs[0] || q in qs[1..];
      FilterStep(qs, rest);
      if qs[0].id !in excluded then [qs[0]] + rest else rest
  }

  // ---------------------------------------------------------------------
  // filter(Question.id == id).one_or_none()

  /** The row with id `id`, if any. */
  function Lookup(qs: seq<Question>, id: int): (r: Option<Question>)
    ensures r.Some? <==> id in Ids(qs)
    ensures r.Some? ==> r.value in qs && r.value.id == id
  {
    if qs == [] then None
    else if qs[0].id == id then Some(qs[0])
    else
      assert forall q :: q in qs <==> q == qs[0] || q in qs[1..];
      Lookup(qs[1..], id)
  }

  // ---------------------------------------------------------------------
  // question.delete()

  /** The table after the row with id `id` is deleted: every other row,
      in the same order. */
  function Without(qs: seq<Question>, id: int): (r: seq<Question>)
  {
    if qs == [] then []
    else if qs[0].id == id then Without(qs[1..], id)
    else [qs[0]] + Without(qs[1..], id)
  }

  /** Deleting an id removes exactly the rows with that id and keeps the
      relative order and distinctness of the others. */
  lemma {:induction false} WithoutRows(qs: seq<Question>, id: int)
    ensures forall q :: q in Without(qs, id) <==> q in qs && q.id != id
    ensures id !in Ids(Without(qs, id))
    ensures DistinctIds(qs) ==> DistinctIds(Without(qs, id))
  {
    if qs != [] {
      WithoutRows(qs[1..], id);
      assert forall q :: q in qs <==> q == qs[0] || q in qs[1..];
      var rest := Without(qs[1..], id);
      if DistinctIds(qs) {
        assert DistinctIds(qs[1..]);
        if qs[0].id != id {
          var r := [qs[0]] + rest;
          forall i, j | 0 <= i < j < |r| ensures r[i].id != r[j].id {
            if i == 0 {
              assert r[j] in rest;
              assert r[j] in qs[1..];
              var k :| 0 <= k < |qs[1..]| && qs[1..][k] == r[j];
              assert qs[k + 1] == r[j];
            }
          }
        }
      }
    }
  }

  /** Deleting an id that is present in a table with distinct ids removes
      exactly one row. */
  lemma {:induction false} WithoutCount(qs: seq<Question>, id: int)
    requires DistinctIds(qs)
    ensures |Without(qs, id)| == if id in Ids(qs) then |qs| - 1 else |qs|
  {
    if qs != [] {
      assert DistinctIds(qs[1..]);
      WithoutCount(qs[1..], id);
      assert Ids(qs) == {qs[0].id} + Ids(qs[1..]) by {
        assert forall q :: q in qs <==> q == qs[0] || q in qs[1..];
      }
    }
  }

  /** Creating a question with a fresh id and deleting it again restores
      the table exactly. */
  lemma {:induction false} InsertThenDelete(qs: seq<Question>, q: Question)
    requires q.id !in Ids(qs)
    ensures Without(qs + [q], q.id) == qs
  {
    if qs == [] {
      assert [q][1..] == [];
    } else {
      assert qs[0] in qs;
      assert (qs + [q])[1..] == qs[1..] + [q];
      assert Ids(qs[1..]) <= Ids(qs) by {
        forall x | x in Ids(qs[1..]) ensures x in Ids(qs) {
          var p :| p in qs[1..] && p.id == x;
          assert p in qs;
        }
      }
      InsertThenDelete(qs[1..], q);
      assert qs == [qs[0]] + qs[1..];
    }
  }
}
