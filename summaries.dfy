/** The two dictionary-filling loops of the handlers: the full category map
    `catlist` (id to `type` for every category row) and the "current
    category" map built by looking up the category of every question. */
module Summaries {
  import opened Store

  /** No row after position `i` (and before `n`) repeats the id of row `i`. */
  ghost predicate LastWithIdBefore(categories: seq<Category>, i: int, n: int)
    requires 0 <= i < |categories| && n <= |categories|
  {
    forall j :: i < j < n ==> categories[j].id != categories[i].id
  }

  /** `m` is the category map of `categories`: one key per id occurring in
      the list, mapped to the `type` of the last row with that id. */
  ghost predicate IsCategoryMap(m: map<Id, string>, categories: seq<Category>) {
    && m.Keys == (set c | c in categories :: c.id)
    && forall i :: 0 <= i < |categories| && LastWithIdBefore(categories, i, |categories|) ==>
         m[categories[i].id] == categories[i].kind
  }

  /** `m` is the current-category map of `questions`: one key per category id
      used by a question, mapped to the `type` of the row `.first()` finds. */
  ghost predicate IsCurrentSummary(m: map<Id, string>, questions: seq<Question>, table: seq<Category>) {
    && m.Keys == (set q | q in questions :: q.category)
    && forall q :: q in questions ==>
         Resolves(table, q.category) && m[q.category] == FirstWithId(table, q.category).value.kind
  }

  /** Question `k` is the first whose category has no row. */
  ghost predicate IsFirstDangling(questions: seq<Question>, table: seq<Category>, k: int) {
    && 0 <= k < |questions|
    && !Resolves(table, questions[k].category)
    && forall j :: 0 <= j < k ==> Resolves(table, questions[j].category)
  }

  /** The outcome of the current-category loop: the map, or the category id
      whose lookup returned `None`, at which point `c.id` raises. */
  datatype Lookup = Resolved(summary: map<Id, string>) | Dangling(category: Id)

  /** `for cat in categories: catlist[cat.id] = cat.type`. A later duplicate
      id overwrites an earlier one. */
  method BuildCategoryMap(categories: seq<Category>) returns (catlist: map<Id, string>)
    ensures IsCategoryMap(catlist, categories)
  {
    catlist := map[];
    for n := 0 to |categories|
      invariant catlist.Keys == (set c | c in categories[..n] :: c.id)
      invariant forall i :: 0 <= i < n && LastWithIdBefore(categories, i, n) ==>
                  catlist[categories[i].id] == categories[i].kind
    {
      assert categories[..n + 1] == categories[..n] + [categories[n]];
      catlist := catlist[categories[n].id := categories[n].kind];
    }
    assert categories[..|categories|] == categories;
  }

  /** `for q in questions: c = Category.query.filter(Category.id == q.category).first();
      currcatlist[c.id] = c.type`. There is no `None` check: the first
      question whose category has no row stops the loop with an error. */
  method BuildCurrentCategories(questions: seq<Question>, table: seq<Category>) returns (r: Lookup)
    ensures r.Dangling? <==> exists q :: q in questions && !Resolves(table, q.category)
    ensures r.Dangling? ==> exists k :: IsFirstDangling(questions, table, k) && questions[k].category == r.category
    ensures r.Resolved? ==> IsCurrentSummary(r.summary, questions, table)
  {
    var currcatlist := map[];
    for n := 0 to |questions|
      invariant forall j :: 0 <= j < n ==> Resolves(table, questions[j].category)
      invariant currcatlist.Keys == (set q | q in questions[..n] :: q.category)
      invariant forall q :: q in questions[..n] ==>
                  currcatlist[q.category] == FirstWithId(table, q.category).value.kind
    {
      var c := FirstWithId(table, questions[n].category);
      if c.None? {
        return Dangling(questions[n].category);
      }
      assert questions[..n + 1] == questions[..n] + [questions[n]];
      currcatlist := currcatlist[c.value.id := c.value.kind];
    }
    assert questions[..|questions|] == questions;
    return Resolved(currcatlist);
  }

  /** On a table with unique ids, the first row with an id is also the last
      one, so a current-category map agrees with the full category map on
      every key it has. */
  lemma CurrentAgreesWithCategoryMap(cur: map<Id, string>, questions: seq<Question>,
                                     all: map<Id, string>, table: seq<Category>)
    requires UniqueIds(table)
    requires IsCurrentSummary(cur, questions, table)
    requires IsCategoryMap(all, table)
    ensures cur.Keys <= all.Keys
    ensures forall id :: id in cur ==> cur[id] == all[id]
  {
  }
}
