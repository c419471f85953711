/** The two tables the handlers query, as sequences of records, and the
    sequence operations that stand for the ORM calls: `order_by(Question.id)`
    is a table kept sorted by id, `filter(...)` is Filter, `one_or_none()` on
    the id is Find, `delete()` is Without and `insert()` appends a record with
    a fresh id. */
module Models {
  import opened Optional

  /** A row of the `questions` table. Every column but the key may be NULL. */
  datatype Question = Question(
    id: int,
    question: Option<string>,
    answer: Option<string>,
    category: Option<int>,
    difficulty: Option<int>)

  /** A row of the `categories` table; `kind` is the column named `type`. */
  datatype Category = Category(id: int, kind: string)

  /** The columns of a question that a create request sets. */
  datatype Column = QuestionText | Answer | CategoryColumn | Difficulty

  /** The JSON body of a create request; a field is None when it is absent or
      null, as `body.get(name, None)` gives. */
  datatype NewQuestion = NewQuestion(
    question: Option<string>,
    answer: Option<string>,
    category: Option<int>,
    difficulty: Option<int>)

  predicate Provides(fields: NewQuestion, c: Column)
  {
    match c
    case QuestionText => fields.question.Some?
    case Answer => fields.answer.Some?
    case CategoryColumn => fields.category.Some?
    case Difficulty => fields.difficulty.Some?
  }

  /** The insert satisfies the table's NOT NULL constraints. */
  predicate Insertable(fields: NewQuestion, notNull: set<Column>)
  {
    forall c :: c in notNull ==> Provides(fields, c)
  }

  /** `Question(question=..., answer=..., category=..., difficulty=...)` once
      the storage has given it the key `id`. */
  function Record(id: int, fields: NewQuestion): (q: Question)
    ensures q.id == id
    ensures q.question == fields.question && q.answer == fields.answer
    ensures q.category == fields.category && q.difficulty == fields.difficulty
  {
    Question(id, fields.question, fields.answer, fields.category, fields.difficulty)
  }

  /** The records of `s` that satisfy `keep`, in their order in `s`. */
  function Filter<T(!new)>(s: seq<T>, keep: T -> bool): (r: seq<T>)
    ensures |r| <= |s|
  {
    if s == [] then []
    else (if keep(s[0]) then [s[0]] else []) + Filter(s[1..], keep)
  }

  /** A filter keeps exactly the records of `s` that pass `keep`. */
  lemma {:induction false} FilterMembers<T(!new)>(s: seq<T>, keep: T -> bool)
    ensures forall x :: x in Filter(s, keep) <==> x in s && keep(x)
  {
    if s != [] {
      FilterMembers(s[1..], keep);
      assert s == [s[0]] + s[1..];
    }
  }

  lemma {:induction false} FilterConcat<T(!new)>(a: seq<T>, b: seq<T>, keep: T -> bool)
    ensures Filter(a + b, keep) == Filter(a, keep) + Filter(b, keep)
  {
    if a != [] {
      assert (a + b)[0] == a[0] && (a + b)[1..] == a[1..] + b;
      FilterConcat(a[1..], b, keep);
      var head := if keep(a[0]) then [a[0]] else [];
      assert Filter(a + b, keep) == head + (Filter(a[1..], keep) + Filter(b, keep));
    } else {
      assert a + b == b;
    }
  }

  /** Filtering keeps a sequence whole when every record passes. */
  lemma {:induction false} FilterKeepsAll<T(!new)>(s: seq<T>, keep: T -> bool)
    requires forall x :: x in s ==> keep(x)
    ensures Filter(s, keep) == s
  {
    if s != [] {
      FilterKeepsAll(s[1..], keep);
    }
  }

  /** Filtering leaves nothing when no record passes. */
  lemma {:induction false} FilterDropsAll<T(!new)>(s: seq<T>, keep: T -> bool)
    requires forall x :: x in s ==> !keep(x)
    ensures Filter(s, keep) == []
  {
    if s != [] {
      FilterDropsAll(s[1..], keep);
    }
  }

  /** Filtering drops a single failing record from between two runs of
      passing ones. */
  lemma FilterDropsOne<T(!new)>(before: seq<T>, x: T, after: seq<T>, keep: T -> bool)
    requires forall y :: y in before ==> keep(y)
    requires !keep(x)
    requires forall y :: y in after ==> keep(y)
    ensures Filter(before + [x] + after, keep) == before + after
  {
    calc {
      Filter(before + [x] + after, keep);
      { FilterConcat(before + [x], after, keep); }
      Filter(before + [x], keep) + Filter(after, keep);
      { FilterConcat(before, [x], keep); }
      Filter(before, keep) + Filter([x], keep) + Filter(after, keep);
      { FilterKeepsAll(before, keep); FilterDropsAll([x], keep); FilterKeepsAll(after, keep); }
      before + [] + after;
      { assert before + [] == before; }
      before + after;
    }
  }

  /** Question ids strictly increase along the sequence: the order of
      `order_by(Question.id)`, and ids are unique. */
  predicate SortedById(rows: seq<Question>)
  {
    forall i, j :: 0 <= i < j < |rows| ==> rows[i].id < rows[j].id
  }

  function Ids(rows: seq<Question>): set<int>
  {
    set q | q in rows :: q.id
  }

  /** `Question.query.filter(Question.id == id).one_or_none()`, as the index
      of that record. */
  function Find(rows: seq<Question>, id: int): (r: Option<nat>)
    ensures r.Some? ==> r.value < |rows| && rows[r.value].id == id
    ensures r.None? <==> id !in Ids(rows)
  {
    if rows == [] then None
    else if rows[0].id == id then Some(0)
    else
      match Find(rows[1..], id)
      case None => None
      case Some(i) => Some(i + 1)
  }

  /** The test `Question.id != id`. */
  function OtherThan(id: int): Question -> bool
  {
    (q: Question) => q.id != id
  }

  /** The table after `question.delete()` on the record with key `id`. */
  function Without(rows: seq<Question>, id: int): (r: seq<Question>)
    ensures |r| <= |rows|
    ensures forall q :: q in r <==> q in rows && q.id != id
  {
    FilterMembers(rows, OtherThan(id));
    Filter(rows, OtherThan(id))
  }

  /** Filtering keeps the id order. */
  lemma {:induction false} FilterKeepsSorted(rows: seq<Question>, keep: Question -> bool)
    requires SortedById(rows)
    ensures SortedById(Filter(rows, keep))
  {
    if rows != [] {
      FilterKeepsSorted(rows[1..], keep);
      FilterMembers(rows[1..], keep);
      var rest := Filter(rows[1..], keep);
      forall j | 0 <= j < |rest|
        ensures rows[0].id < rest[j].id
      {
        assert rest[j] in rows[1..];
      }
    }
  }

  /** In a table with unique ids, a filter that one record alone passes
      yields exactly that record. */
  lemma {:induction false} FilterSingle(rows: seq<Question>, keep: Question -> bool, q: Question)
    requires SortedById(rows)
    requires q in rows && keep(q)
    requires forall p :: p in rows && p != q ==> !keep(p)
    ensures Filter(rows, keep) == [q]
  {
    if rows[0] == q {
      assert forall p :: p in rows[1..] ==> p.id > q.id;
      FilterDropsAll(rows[1..], keep);
    } else {
      FilterSingle(rows[1..], keep, q);
    }
  }

  /** In an id-ordered table, the records before index `i` have smaller ids
      than `rows[i]` and the records after it larger ones. */
  lemma IdsAround(rows: seq<Question>, i: nat)
    requires SortedById(rows) && i < |rows|
    ensures forall x :: x in rows[..i] ==> x.id < rows[i].id
    ensures forall x :: x in rows[i + 1..] ==> x.id > rows[i].id
  {
    forall x | x in rows[..i]
      ensures x.id < rows[i].id
    {
      var k :| 0 <= k < i && rows[..i][k] == x;
      assert rows[k] == x;
    }
    forall x | x in rows[i + 1..]
      ensures x.id > rows[i].id
    {
      var k :| 0 <= k < |rows| - i - 1 && rows[i + 1..][k] == x;
      assert rows[i + 1 + k] == x;
    }
  }

  /** Deleting the record at index `i` of a sorted table removes that one
      record and keeps every other record, in order. */
  lemma RemoveAtIsWithout(rows: seq<Question>, i: nat)
    requires SortedById(rows) && i < |rows|
    ensures Without(rows, rows[i].id) == rows[..i] + rows[i + 1..]
  {
    IdsAround(rows, i);
    assert rows == rows[..i] + [rows[i]] + rows[i + 1..];
    FilterDropsOne(rows[..i], rows[i], rows[i + 1..], OtherThan(rows[i].id));
  }

  /** Deleting an existing id removes exactly one record: the count drops by
      one, the id is gone, every other record stays, and the order is kept. */
  lemma DeleteExisting(rows: seq<Question>, id: int)
    requires SortedById(rows) && id in Ids(rows)
    ensures |Without(rows, id)| == |rows| - 1
    ensures Ids(Without(rows, id)) == Ids(rows) - {id}
    ensures forall q :: q in Without(rows, id) <==> q in rows && q.id != id
    ensures SortedById(Without(rows, id))
  {
    var i := Find(rows, id).value;
    RemoveAtIsWithout(rows, i);
    FilterKeepsSorted(rows, OtherThan(id));
  }

  /** Deleting an id that no record has changes nothing. */
  lemma DeleteMissing(rows: seq<Question>, id: int)
    requires id !in Ids(rows)
    ensures Without(rows, id) == rows
  {
    FilterKeepsAll(rows, OtherThan(id));
  }

  /** Appending a record whose id is above every id in a sorted table keeps
      it sorted, and that id was not in use. */
  lemma AppendFresh(rows: seq<Question>, q: Question)
    requires SortedById(rows)
    requires forall p :: p in rows ==> p.id < q.id
    ensures SortedById(rows + [q])
    ensures q.id !in Ids(rows)
    ensures Ids(rows + [q]) == Ids(rows) + {q.id}
  {
    assert forall i :: 0 <= i < |rows| ==> rows[i] in rows;
  }

  /** `{category.id: category.type for category in categories}`: a later
      category with the same id overwrites an earlier one. */
  function CategoryMap(cats: seq<Category>): (m: map<int, string>)
    ensures |m| <= |cats|
    ensures forall c :: c in cats ==> c.id in m
  {
    if cats == [] then map[]
    else CategoryMap(cats[..|cats| - 1])[cats[|cats| - 1].id := cats[|cats| - 1].kind]
  }

  /** The mapping has one key per category id. */
  lemma {:induction false} CategoryMapKeys(cats: seq<Category>)
    ensures CategoryMap(cats).Keys == set c | c in cats :: c.id
  {
    if cats != [] {
      var init := cats[..|cats| - 1];
      CategoryMapKeys(init);
      assert cats == init + [cats[|cats| - 1]];
    }
  }

  predicate UniqueCategoryIds(cats: seq<Category>)
  {
    forall i, j :: 0 <= i < j < |cats| ==> cats[i].id != cats[j].id
  }

  /** With unique ids (the table's key), the mapping has exactly one entry
      per category, and that entry is the category's `type`. */
  lemma {:induction false} CategoryMapEntries(cats: seq<Category>)
    requires UniqueCategoryIds(cats)
    ensures |CategoryMap(cats)| == |cats|
    ensures forall c :: c in cats ==> c.id in CategoryMap(cats) && CategoryMap(cats)[c.id] == c.kind
  {
    if cats != [] {
      var init, last := cats[..|cats| - 1], cats[|cats| - 1];
      CategoryMapEntries(init);
      CategoryMapKeys(init);
      assert last.id !in CategoryMap(init);
      forall c | c in cats
        ensures c.id in CategoryMap(cats) && CategoryMap(cats)[c.id] == c.kind
      {
        if c != last {
          assert c in init by {
            var k :| 0 <= k < |cats| && cats[k] == c;
            assert k < |cats| - 1;
            assert init[k] == c;
          }
        }
      }
    }
  }
}
