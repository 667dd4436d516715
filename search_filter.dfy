/** The scalar filter that `POST /search` hands to the vector index
    (backend/app/main.py, `search`, lines 79-100). Each optional field of the
    query contributes at most one predicate; the predicates are rendered into
    the index's expression language exactly as the service interpolates them
    (no escaping) and joined with " and " in a fixed order. */
module SearchFilter {
  import opened Wrappers
  import opened Strings

  /** The request body: free text plus optional filters. */
  datatype Query = Query(
    text: string,
    docType: Option<string>,
    dateRange: Option<seq<string>>,
    citationMin: Option<int>,
    fieldOfResearch: Option<string>)

  /** One predicate of the conjunction, in the order the service emits them. */
  datatype Clause =
    | DocTypeIs(docType: string)
    | PublishedBetween(start: string, end: string)
    | CitedAtLeast(minimum: nat)
    | FieldLike(field: string)
  {
    /** Position of this kind of predicate in the conjunction. */
    function Rank(): nat
    {
      match this
      case DocTypeIs(_) => 0
      case PublishedBetween(_, _) => 1
      case CitedAtLeast(_) => 2
      case FieldLike(_) => 3
    }

    /** The text the service appends to `expr_parts` for this predicate. */
    function Render(): string
    {
      match this
      case DocTypeIs(t) => "doc_type == '" + t + "'"
      case PublishedBetween(a, b) => "pub_date >= '" + a + "' and pub_date <= '" + b + "'"
      case CitedAtLeast(n) => "citation_count >= " + NatToString(n)
      case FieldLike(f) => "field_of_research like '%" + f + "%'"
    }
  }

  // When each optional field contributes a predicate (Python truthiness).

  predicate DocTypeApplies(q: Query)
  {
    q.docType.Some? && q.docType.value != "" && q.docType.value != "both"
  }

  predicate DateRangeApplies(q: Query)
  {
    q.dateRange.Some? && |q.dateRange.value| == 2
    && q.dateRange.value[0] != "" && q.dateRange.value[1] != ""
  }

  predicate CitationApplies(q: Query)
  {
    q.citationMin.Some? && q.citationMin.value > 0
  }

  predicate FieldApplies(q: Query)
  {
    q.fieldOfResearch.Some? && q.fieldOfResearch.value != ""
  }

  predicate AnyApplies(q: Query)
  {
    DocTypeApplies(q) || DateRangeApplies(q) || CitationApplies(q) || FieldApplies(q)
  }

  /** The predicates a query gives rise to, added one field at a time. */
  function Clauses(q: Query): seq<Clause>
  {
    WithField(q, WithCitation(q, WithDateRange(q, WithDocType(q, []))))
  }

  function WithDocType(q: Query, cs: seq<Clause>): seq<Clause>
  {
    if DocTypeApplies(q) then cs + [DocTypeIs(q.docType.value)] else cs
  }

  function WithDateRange(q: Query, cs: seq<Clause>): seq<Clause>
  {
    if DateRangeApplies(q) then cs + [PublishedBetween(q.dateRange.value[0], q.dateRange.value[1])] else cs
  }

  function WithCitation(q: Query, cs: seq<Clause>): seq<Clause>
  {
    if CitationApplies(q) then cs + [CitedAtLeast(q.citationMin.value)] else cs
  }

  function WithField(q: Query, cs: seq<Clause>): seq<Clause>
  {
    if FieldApplies(q) then cs + [FieldLike(q.fieldOfResearch.value)] else cs
  }

  function RenderAll(cs: seq<Clause>): (r: seq<string>)
    ensures |r| == |cs|
    ensures forall i :: 0 <= i < |cs| ==> r[i] == cs[i].Render()
  {
    if |cs| == 0 then [] else [cs[0].Render()] + RenderAll(cs[1..])
  }

  /** The expression sent to the index: `None` when nothing applies, else the
      rendered predicates joined with " and ". */
  function FilterExpression(q: Query): Option<string>
  {
    var cs := Clauses(q);
    if cs == [] then None else Some(Join(RenderAll(cs), " and "))
  }

  /** The service's construction: append each applicable predicate to a list,
      then join the list (or give `None` for an empty list). */
  method BuildFilter(q: Query) returns (expr: Option<string>)
    ensures expr.None? <==> !AnyApplies(q)
    ensures expr == FilterExpression(q)
  {
    var parts: seq<string> := [];
    ghost var cs: seq<Clause> := [];
    DocTypeStep(q, cs, parts);
    if q.docType.Some? && q.docType.value != "" && q.docType.value != "both" {
      parts := parts + ["doc_type == '" + q.docType.value + "'"];
    }
    cs := WithDocType(q, cs);
    DateRangeStep(q, cs, parts);
    if q.dateRange.Some? && |q.dateRange.value| == 2
      && q.dateRange.value[0] != "" && q.dateRange.value[1] != ""
    {
      parts := parts + ["pub_date >= '" + q.dateRange.value[0] + "' and pub_date <= '" + q.dateRange.value[1] + "'"];
    }
    cs := WithDateRange(q, cs);
    CitationStep(q, cs, parts);
    if q.citationMin.Some? {
      var citationMin := q.citationMin.value;
      if citationMin > 0 {
        parts := parts + ["citation_count >= " + NatToString(citationMin)];
      }
    }
    cs := WithCitation(q, cs);
    FieldStep(q, cs, parts);
    if q.fieldOfResearch.Some? && q.fieldOfResearch.value != "" {
      parts := parts + ["field_of_research like '%" + q.fieldOfResearch.value + "%'"];
    }
    cs := WithField(q, cs);
    expr := if |parts| > 0 then Some(Join(parts, " and ")) else None;
    NoneExactlyWhenUnfiltered(q);
  }

  // One lemma per `if` of the construction: the list of texts stays the
  // rendering of the predicates added so far.

  lemma DocTypeStep(q: Query, cs: seq<Clause>, parts: seq<string>)
    requires parts == RenderAll(cs)
    ensures (if q.docType.Some? && q.docType.value != "" && q.docType.value != "both"
             then parts + ["doc_type == '" + q.docType.value + "'"] else parts)
         == RenderAll(WithDocType(q, cs))
  {
    if DocTypeApplies(q) {
      RenderAllSnoc(cs, DocTypeIs(q.docType.value));
    }
  }

  lemma DateRangeStep(q: Query, cs: seq<Clause>, parts: seq<string>)
    requires parts == RenderAll(cs)
    ensures (if q.dateRange.Some? && |q.dateRange.value| == 2
               && q.dateRange.value[0] != "" && q.dateRange.value[1] != ""
             then parts + ["pub_date >= '" + q.dateRange.value[0] + "' and pub_date <= '" + q.dateRange.value[1] + "'"]
             else parts)
         == RenderAll(WithDateRange(q, cs))
  {
    if DateRangeApplies(q) {
      RenderAllSnoc(cs, PublishedBetween(q.dateRange.value[0], q.dateRange.value[1]));
    }
  }

  lemma CitationStep(q: Query, cs: seq<Clause>, parts: seq<string>)
    requires parts == RenderAll(cs)
    ensures (if q.citationMin.Some? && q.citationMin.value > 0
             then parts + ["citation_count >= " + NatToString(q.citationMin.value)] else parts)
         == RenderAll(WithCitation(q, cs))
  {
    if CitationApplies(q) {
      RenderAllSnoc(cs, CitedAtLeast(q.citationMin.value));
    }
  }

  lemma FieldStep(q: Query, cs: seq<Clause>, parts: seq<string>)
    requires parts == RenderAll(cs)
    ensures (if q.fieldOfResearch.Some? && q.fieldOfResearch.value != ""
             then parts + ["field_of_research like '%" + q.fieldOfResearch.value + "%'"] else parts)
         == RenderAll(WithField(q, cs))
  {
    if FieldApplies(q) {
      RenderAllSnoc(cs, FieldLike(q.fieldOfResearch.value));
    }
  }

  lemma {:induction false} RenderAllSnoc(cs: seq<Clause>, c: Clause)
    ensures RenderAll(cs + [c]) == RenderAll(cs) + [c.Render()]
  {
  }

  // ---------------------------------------------------------------------------
  // What the conjunction contains

  /** The members of the conjunction, one per applicable field. */
  lemma ClausesMembers(q: Query, c: Clause)
    ensures c in Clauses(q) <==>
      || (DocTypeApplies(q) && c == DocTypeIs(q.docType.value))
      || (DateRangeApplies(q) && c == PublishedBetween(q.dateRange.value[0], q.dateRange.value[1]))
      || (CitationApplies(q) && c == CitedAtLeast(q.citationMin.value))
      || (FieldApplies(q) && c == FieldLike(q.fieldOfResearch.value))
  {
    var c1 := WithDocType(q, []);
    var c2 := WithDateRange(q, c1);
    var c3 := WithCitation(q, c2);
    assert c in c1 <==> DocTypeApplies(q) && c == DocTypeIs(q.docType.value);
    assert c in c2 <==> c in c1 || (DateRangeApplies(q) && c == PublishedBetween(q.dateRange.value[0], q.dateRange.value[1]));
    assert c in c3 <==> c in c2 || (CitationApplies(q) && c == CitedAtLeast(q.citationMin.value));
  }

  /** A `doc_type` equality is emitted exactly when the field is non-empty and
      not "both", and then it compares with the given value. */
  lemma DocTypeClausePresent(q: Query)
    ensures (exists c :: c in Clauses(q) && c.DocTypeIs?) <==> DocTypeApplies(q)
    ensures forall c :: c in Clauses(q) && c.DocTypeIs? ==> c == DocTypeIs(q.docType.value)
  {
    forall c | c in Clauses(q) ensures c.DocTypeIs? ==> DocTypeApplies(q) && c == DocTypeIs(q.docType.value) {
      ClausesMembers(q, c);
    }
    if DocTypeApplies(q) {
      ClausesMembers(q, DocTypeIs(q.docType.value));
    }
  }

  /** A date-range predicate appears exactly when the range is a list of two
      non-empty strings, and it bounds `pub_date` by those two strings. */
  lemma DateRangeClausePresent(q: Query)
    ensures (exists c :: c in Clauses(q) && c.PublishedBetween?) <==> DateRangeApplies(q)
    ensures forall c :: c in Clauses(q) && c.PublishedBetween? ==>
      DateRangeApplies(q) && c == PublishedBetween(q.dateRange.value[0], q.dateRange.value[1])
  {
    forall c | c in Clauses(q) ensures c.PublishedBetween? ==>
      DateRangeApplies(q) && c == PublishedBetween(q.dateRange.value[0], q.dateRange.value[1])
    {
      ClausesMembers(q, c);
    }
    if DateRangeApplies(q) {
      ClausesMembers(q, PublishedBetween(q.dateRange.value[0], q.dateRange.value[1]));
    }
  }

  /** A citation threshold appears exactly when the minimum is strictly
      positive, and it is that minimum. */
  lemma CitationClausePresent(q: Query)
    ensures (exists c :: c in Clauses(q) && c.CitedAtLeast?) <==> CitationApplies(q)
    ensures forall c :: c in Clauses(q) && c.CitedAtLeast? ==>
      CitationApplies(q) && c.minimum == q.citationMin.value
  {
    forall c | c in Clauses(q) ensures c.CitedAtLeast? ==>
      CitationApplies(q) && c.minimum == q.citationMin.value
    {
      ClausesMembers(q, c);
    }
    if CitationApplies(q) {
      ClausesMembers(q, CitedAtLeast(q.citationMin.value));
    }
  }

  /** A `like` predicate appears exactly when the field of research is
      non-empty, and it matches that text as a substring. */
  lemma FieldClausePresent(q: Query)
    ensures (exists c :: c in Clauses(q) && c.FieldLike?) <==> FieldApplies(q)
    ensures forall c :: c in Clauses(q) && c.FieldLike? ==>
      FieldApplies(q) && c == FieldLike(q.fieldOfResearch.value)
  {
    forall c | c in Clauses(q) ensures c.FieldLike? ==>
      FieldApplies(q) && c == FieldLike(q.fieldOfResearch.value)
    {
      ClausesMembers(q, c);
    }
    if FieldApplies(q) {
      ClausesMembers(q, FieldLike(q.fieldOfResearch.value));
    }
  }

  /** The predicates come in the fixed order doc_type, date range, citation,
      field, each at most once. */
  lemma ClausesOrdered(q: Query)
    ensures |Clauses(q)| <= 4
    ensures forall i, j :: 0 <= i < j < |Clauses(q)| ==> Clauses(q)[i].Rank() < Clauses(q)[j].Rank()
  {
  }

  /** A zero or negative citation minimum adds nothing: the expression is the
      one obtained without a minimum. */
  lemma NonPositiveCitationIgnored(q: Query)
    requires q.citationMin.Some? && q.citationMin.value <= 0
    ensures FilterExpression(q) == FilterExpression(q.(citationMin := None))
  {
  }

  /** The expression is absent exactly when no predicate applies. */
  lemma NoneExactlyWhenUnfiltered(q: Query)
    ensures FilterExpression(q).None? <==> !AnyApplies(q)
  {
    if AnyApplies(q) {
      assert |Clauses(q)| > 0;
    }
  }

  /** A document type with a positive citation minimum and no other filter:
      the two predicates joined by " and ", the type first. */
  lemma DocTypeAndCitation(q: Query)
    requires q.docType.Some? && q.docType.value != "" && q.docType.value != "both"
    requires q.dateRange.None? && q.fieldOfResearch.None?
    requires q.citationMin.Some? && q.citationMin.value > 0
    ensures FilterExpression(q)
         == Some("doc_type == '" + q.docType.value + "'" + " and " + "citation_count >= " + NatToString(q.citationMin.value))
  {
    var cs := [DocTypeIs(q.docType.value), CitedAtLeast(q.citationMin.value)];
    assert WithDocType(q, []) == [DocTypeIs(q.docType.value)];
    assert Clauses(q) == cs;
    var rendered := RenderAll(cs);
    assert rendered == [cs[0].Render(), cs[1].Render()];
    JoinTwo(cs[0].Render(), cs[1].Render(), " and ");
    assert FilterExpression(q) == Some(Join(rendered, " and "));
    assert cs[0].Render() == "doc_type == '" + q.docType.value + "'";
    assert cs[1].Render() == "citation_count >= " + NatToString(q.citationMin.value);
    var head := cs[0].Render() + " and ";
    assert head + ("citation_count >= " + NatToString(q.citationMin.value))
        == head + "citation_count >= " + NatToString(q.citationMin.value);
  }

  lemma JoinTwo(a: string, b: string, sep: string)
    ensures Join([a, b], sep) == a + sep + b
  {
    assert [a, b][1..] == [b];
  }

}
