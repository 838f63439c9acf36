/** Rows of the trivia database as the request handlers see them, and the two
    query shapes the handlers run over them: `filter(...).first()` on the
    categories table and `filter(...).all()` on the questions table. The
    database itself is not modelled: a table is the sequence of its rows in
    the order the query returns them. */
module Store {

  type Id = int

  datatype Option<+T> = None | Some(value: T)

  /** A row of the `questions` table. `category` is a plain column: nothing
      guarantees that a category with that id exists. */
  datatype Question = Question(id: Id, question: string, answer: string, category: Id, difficulty: int)

  /** A row of the `categories` table; `kind` is the column the source calls `type` (the display name). */
  datatype Category = Category(id: Id, kind: string)

  /** The categories table has a primary key: no two rows share an id. */
  ghost predicate UniqueIds(table: seq<Category>) {
    forall i, j :: 0 <= i < j < |table| ==> table[i].id != table[j].id
  }

  /** Row `k` is the first row of `table` whose id is `id`. */
  ghost predicate IsFirstWithId(table: seq<Category>, id: Id, k: int) {
    0 <= k < |table| && table[k].id == id && forall j :: 0 <= j < k ==> table[j].id != id
  }

  /** Position of the first row with that id, or `|table|` when there is none. */
  function FirstIndexWithId(table: seq<Category>, id: Id): (k: nat)
    ensures k <= |table|
    ensures k < |table| ==> IsFirstWithId(table, id, k)
    ensures k == |table| ==> forall j :: 0 <= j < |table| ==> table[j].id != id
  {
    if |table| == 0 then 0
    else if table[0].id == id then 0
    else 1 + FirstIndexWithId(table[1..], id)
  }

  /** `Category.query.filter(Category.id == id).first()`: the first row with
      that id, or None (Python's `None`) when there is none. */
  function FirstWithId(table: seq<Category>, id: Id): (r: Option<Category>)
    ensures r.None? <==> forall k :: 0 <= k < |table| ==> table[k].id != id
    ensures r.Some? ==> exists k :: IsFirstWithId(table, id, k) && table[k] == r.value
  {
    var k := FirstIndexWithId(table, id);
    if k < |table| then Some(table[k]) else None
  }

  /** True when the category id of a question names a row of `table`. */
  predicate Resolves(table: seq<Category>, id: Id) {
    FirstWithId(table, id).Some?
  }

  /** `query.filter(p).all()`: the rows satisfying `p`, in table order, each
      as many times as it occurs. */
  function Filter(s: seq<Question>, p: Question -> bool): (r: seq<Question>)
    ensures |r| <= |s|
    ensures forall q :: q in r <==> q in s && p(q)
    ensures forall q :: multiset(r)[q] == if p(q) then multiset(s)[q] else 0
  {
    if |s| == 0 then []
    else
      assert s == [s[0]] + s[1..];
      if p(s[0]) then [s[0]] + Filter(s[1..], p) else Filter(s[1..], p)
  }

  /** Filtering distributes over concatenation: the filter keeps the rows in
      the order the table gives them. */
  lemma {:induction false} FilterAppend(s: seq<Question>, t: seq<Question>, p: Question -> bool)
    ensures Filter(s + t, p) == Filter(s, p) + Filter(t, p)
  {
    if |s| == 0 {
      assert s + t == t;
    } else {
      assert (s + t)[1..] == s[1..] + t;
      FilterAppend(s[1..], t, p);
    }
  }

  /** `Question.query.filter(Question.category == id).all()`. */
  function QuestionsInCategory(table: seq<Question>, id: Id): (r: seq<Question>)
    ensures forall q :: q in r <==> q in table && q.category == id
  {
    Filter(table, (q: Question) => q.category == id)
  }
}
