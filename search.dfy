/** The post-processing of `POST /search` (backend/app/main.py, lines 74-187):
    build the filter, ask the index, turn its hits into documents, label them
    with sub-topics and aggregate trends and velocity. Encoding the query
    text and searching the index are one external call, `retrieve`, which may
    fail; KMeans is the external function `kmeans` from vectors to labels. */
module Search {
  import opened Wrappers
  import opened Sums
  import opened SearchFilter
  import opened SubTopics
  import opened Trends
  import opened Velocity

  const NoResults := "No results found. Try broadening your filters (e.g., use a more general field of research, a wider date range, or lower citation threshold)."

  /** The JSON object `search` returns. */
  datatype Response = Response(
    documents: seq<Document>,
    trends: Table,
    velocity: map<string, seq<Entry>>,
    error: Option<string>)

  /** The documents built from the hits, in hit order. */
  function Documents<V>(hits: seq<Entity<V>>): (docs: seq<Document>)
    ensures |docs| == |hits|
    ensures forall i :: 0 <= i < |hits| ==> docs[i] == ToDocument(hits[i])
  {
    seq(|hits|, i requires 0 <= i < |hits| => ToDocument(hits[i]))
  }

  /** The vectors of the hits, a missing one replaced by `zero`. */
  function Vectors<V>(hits: seq<Entity<V>>, zero: V): (vs: seq<V>)
    ensures |vs| == |hits|
    ensures forall i :: 0 <= i < |hits| ==> vs[i] == VectorOf(hits[i], zero)
  {
    seq(|hits|, i requires 0 <= i < |hits| => VectorOf(hits[i], zero))
  }

  /** Lines 120-138: one document and one vector per hit. */
  method CollectHits<V>(hits: seq<Entity<V>>, zero: V) returns (documents: seq<Document>, vectors: seq<V>)
    ensures documents == Documents(hits)
    ensures vectors == Vectors(hits, zero)
  {
    documents, vectors := [], [];
    var i := 0;
    while i < |hits|
      invariant 0 <= i <= |hits|
      invariant documents == Documents(hits[..i])
      invariant vectors == Vectors(hits[..i], zero)
    {
      var entity := hits[i];
      var doc := ToDocument(entity);
      if entity.vector.Some? {
        vectors := vectors + [entity.vector.value];
      } else {
        vectors := vectors + [zero];
      }
      documents := documents + [doc];
      i := i + 1;
    }
    assert hits[..i] == hits;
  }

  /** What KMeans promises: as many labels as vectors, each below
      `min(5, len(vectors))`. */
  ghost predicate KMeansContract<V(!new)>(kmeans: seq<V> -> seq<nat>)
  {
    forall vs :: |kmeans(vs)| == |vs| && forall i :: 0 <= i < |vs| ==> kmeans(vs)[i] < NumClusters(|vs|)
  }

  /** The labelled documents of a non-empty result. */
  function LabelledHit<V(!new)>(hits: seq<Entity<V>>, zero: V, finite: V -> bool, kmeans: seq<V> -> seq<nat>,
                       vocabulary: seq<string> -> Option<seq<string>>, i: nat): Document
    requires i < |hits|
    requires KMeansContract(kmeans)
  {
    var vs := Vectors(hits, zero);
    ToDocument(hits[i]).(subTopic := Some(SubTopicOf(Documents(hits), Clusterable(vs, finite), kmeans(vs), i, vocabulary)))
  }

  /** `search`: a failing retrieval gives its message and nothing else; no hit
      gives the fixed advice and nothing else; otherwise every hit becomes a
      labelled document, the trend table counts them and the velocity lists
      are those of the trend rows. */
  method Search<V(!new)>(q: Query, retrieve: (string, Option<string>) -> Result<seq<Entity<V>>>, zero: V,
                   finite: V -> bool, kmeans: seq<V> -> seq<nat>, vocabulary: seq<string> -> Option<seq<string>>)
    returns (r: Response)
    requires KMeansContract(kmeans)
    ensures retrieve(q.text, FilterExpression(q)).Err? ==>
      r == Response([], map[], map[], Some(retrieve(q.text, FilterExpression(q)).message))
    ensures retrieve(q.text, FilterExpression(q)) == Ok([]) ==>
      r == Response([], map[], map[], Some(NoResults))
    ensures r.error.None? <==> retrieve(q.text, FilterExpression(q)).Ok? && retrieve(q.text, FilterExpression(q)).value != []
    ensures r.error.None? ==>
      var hits := retrieve(q.text, FilterExpression(q)).value;
      && |r.documents| == |hits|
      && (forall i :: 0 <= i < |hits| ==> r.documents[i] == LabelledHit(hits, zero, finite, kmeans, vocabulary, i))
      && Labelled(r.documents)
      && r.trends == Tally(r.documents)
      && r.velocity.Keys == r.trends.Keys
      && (forall t :: t in r.trends ==> IsVelocity(r.trends[t], r.velocity[t]))
  {
    var expr := BuildFilter(q);
    var results := retrieve(q.text, expr);
    if results.Err? {
      return Response([], map[], map[], Some(results.message));
    }
    var documents, vectors := CollectHits(results.value, zero);
    if |documents| == 0 {
      return Response([], map[], map[], Some(NoResults));
    }
    ghost var hits := results.value;
    var labelled := AssignSubTopics(documents, vectors, finite, kmeans(vectors), vocabulary);
    LabelledHits(hits, zero, finite, kmeans, vocabulary, documents, vectors, labelled);
    var trends := ComputeTrends(labelled);
    var velocity := ComputeVelocity(trends);
    r := Response(labelled, trends, velocity, None);
  }

  /** The labelled documents are those of the specification, and all carry a
      sub-topic. */
  lemma LabelledHits<V(!new)>(hits: seq<Entity<V>>, zero: V, finite: V -> bool, kmeans: seq<V> -> seq<nat>,
                         vocabulary: seq<string> -> Option<seq<string>>,
                         documents: seq<Document>, vectors: seq<V>, labelled: seq<Document>)
    requires KMeansContract(kmeans)
    requires documents == Documents(hits) && vectors == Vectors(hits, zero)
    requires |labelled| == |documents|
    requires forall i :: 0 <= i < |documents| ==>
      labelled[i] == documents[i].(subTopic := Some(SubTopicOf(documents, Clusterable(vectors, finite), kmeans(vectors), i, vocabulary)))
    ensures forall i :: 0 <= i < |hits| ==> labelled[i] == LabelledHit(hits, zero, finite, kmeans, vocabulary, i)
    ensures Labelled(labelled)
  {
  }

  // ---------------------------------------------------------------------------
  // What the aggregates say about the documents

  /** The documents of the trend table are all the documents. */
  lemma TrendsCountDocuments(r: Response)
    requires Labelled(r.documents) && r.trends == Tally(r.documents)
    ensures SumValues(Totals(r.trends)) == |r.documents|
    ensures forall t, d :: t in r.trends && d in r.trends[t] ==> r.trends[t][d] == Count(r.documents, t, d)
  {
    TallyTotal(r.documents);
    forall t, d | t in r.trends && d in r.trends[t] ensures r.trends[t][d] == Count(r.documents, t, d) {
      TallyCount(r.documents, t, d);
    }
  }

  /** Each velocity count is the number of documents of the sub-topic published
      in that year, and the counts of a sub-topic add up to its documents whose
      date starts with four digits (or is a shorter digit string). */
  lemma VelocityCountsDocuments(docs: seq<Document>, t: string, entries: seq<Entry>)
    requires Labelled(docs) && t in Tally(docs)
    requires IsVelocity(Tally(docs)[t], entries)
    ensures forall i :: 0 <= i < |entries| ==> entries[i].count == CountWhere(docs, t, YearIs(entries[i].year))
    ensures CountsSum(entries) == CountWhere(docs, t, HasDigitYear)
  {
    forall i | 0 <= i < |entries| ensures entries[i].count == CountWhere(docs, t, YearIs(entries[i].year)) {
      TallyRestricted(docs, t, YearIs(entries[i].year));
    }
    TallyRestricted(docs, t, HasDigitYear);
  }
}
