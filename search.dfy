/** The `ilike` pattern of `search_question`. The matching itself is done by
    the database and is a parameter of the model (see `Endpoints`). */
module Search {
  import opened Store

  /** `exp = ''; if searchTerm is not None: exp = '%' + searchTerm + '%'`.
      An absent term gives the empty pattern; a present term, even the empty
      one, is wrapped in one wildcard on each side. */
  function SearchPattern(searchTerm: Option<string>): (exp: string)
    ensures searchTerm.None? <==> exp == ""
    ensures searchTerm.Some? ==>
              |exp| == |searchTerm.value| + 2 && exp[0] == '%' && exp[|exp| - 1] == '%'
              && exp[1..|exp| - 1] == searchTerm.value
  {
    if searchTerm.Some? then "%" + searchTerm.value + "%" else ""
  }

  /** `Question.query.filter(Question.question.ilike(exp)).all()`. How the
      database matches a text against a pattern is the parameter `ilike`. */
  function SearchHits(table: seq<Question>, exp: string, ilike: (string, string) -> bool): (hits: seq<Question>)
    ensures forall q :: q in hits <==> q in table && ilike(q.question, exp)
  {
    Filter(table, (q: Question) => ilike(q.question, exp))
  }

  /** Reads the term back out of a pattern: the inverse of `SearchPattern`. */
  function TermOfPattern(exp: string): Option<string> {
    if |exp| < 2 then None else Some(exp[1..|exp| - 1])
  }

  /** Every pattern determines the request's term, absent or present. */
  lemma PatternRoundTrip(searchTerm: Option<string>)
    ensures TermOfPattern(SearchPattern(searchTerm)) == searchTerm
  {
  }

  /** Two requests give the same pattern only when they carry the same term;
      in particular an absent term and an empty one differ (`''` against
      `'%%'`, which every text matches). */
  lemma PatternInjective(a: Option<string>, b: Option<string>)
    requires SearchPattern(a) == SearchPattern(b)
    ensures a == b
  {
  }

  lemma AbsentAndEmptyTermsDiffer()
    ensures SearchPattern(None) == ""
    ensures SearchPattern(Some("")) == "%%"
  {
  }
}
