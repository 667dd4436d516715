/** Search hits and their sub-topic labels (backend/app/main.py, lines 48-64,
    120-138 and 148-161). The clustering library's labels and the TF-IDF
    vocabulary of a cluster are external: the labels are an input sequence and
    the vocabulary is a function parameter that may fail (`None`). Vectors are
    opaque values of a type parameter, with finiteness a parameter predicate. */
module SubTopics {
  import opened Wrappers
  import opened Strings

  const Miscellaneous := "Miscellaneous"

  /** The fields the service asks the index to return for each hit. */
  datatype Entity<V> = Entity(
    id: string,
    title: string,
    abstractText: string,
    docType: string,
    pubDate: string,
    citationCount: int,
    fieldOfResearch: string,
    vector: Option<V>)

  /** A document of the response; `subTopic` is `None` until labelled. */
  datatype Document = Document(
    id: string,
    title: string,
    abstractText: string,
    docType: string,
    pubDate: string,
    citationCount: int,
    fieldOfResearch: string,
    subTopic: Option<string>)

  /** The document built from a hit: an empty title reads "Untitled". */
  function ToDocument<V>(e: Entity<V>): (d: Document)
    ensures d.title != ""
    ensures d.subTopic.None?
  {
    Document(e.id, if e.title != "" then e.title else "Untitled", e.abstractText,
             e.docType, e.pubDate, e.citationCount, e.fieldOfResearch, None)
  }

  /** The hit's vector, or the all-zero vector when the index returned none. */
  function VectorOf<V>(e: Entity<V>, zero: V): V
  {
    e.vector.GetOr(zero)
  }

  /** Clustering runs only for at least two vectors that are all finite. */
  predicate Clusterable<V>(vectors: seq<V>, finite: V -> bool)
  {
    |vectors| > 1 && forall i :: 0 <= i < |vectors| ==> finite(vectors[i])
  }

  function NumClusters(n: nat): (k: nat)
    ensures k <= 5 && k <= n && (k == 5 || k == n)
  {
    if n < 5 then n else 5
  }

  // ---------------------------------------------------------------------------
  // Naming the clusters (`generate_subtopic_names`)

  /** The abstracts of the documents labelled `c`, in document order. */
  function ClusterOf(docs: seq<Document>, labels: seq<nat>, c: nat): seq<string>
    requires |labels| == |docs|
  {
    if |docs| == 0 then []
    else
      var n := |docs| - 1;
      ClusterOf(docs[..n], labels[..n], c) + (if labels[n] == c then [docs[n].abstractText] else [])
  }

  predicate AllEmpty(cluster: seq<string>)
  {
    forall i :: 0 <= i < |cluster| ==> cluster[i] == ""
  }

  /** The name of one cluster: "Miscellaneous" when it has no document or only
      empty abstracts, or when the vocabulary cannot be fitted; otherwise its
      first two vocabulary terms joined by a space. */
  function ClusterName(cluster: seq<string>, vocabulary: seq<string> -> Option<seq<string>>): string
  {
    if cluster == [] || AllEmpty(cluster) then Miscellaneous
    else match vocabulary(cluster)
      case None => Miscellaneous
      case Some(terms) => Join(if |terms| <= 2 then terms else terms[..2], " ")
  }

  /** A cluster counts as empty exactly when every document labelled with it
      has an empty abstract (vacuously when there is none). */
  lemma {:induction false} ClusterEmptyIff(docs: seq<Document>, labels: seq<nat>, c: nat)
    requires |labels| == |docs|
    ensures AllEmpty(ClusterOf(docs, labels, c))
        <==> (forall i :: 0 <= i < |docs| && labels[i] == c ==> docs[i].abstractText == "")
    ensures ClusterOf(docs, labels, c) == [] <==> (forall i :: 0 <= i < |docs| ==> labels[i] != c)
  {
    if |docs| > 0 {
      var n := |docs| - 1;
      ClusterEmptyIff(docs[..n], labels[..n], c);
      assert forall i :: 0 <= i < n ==> docs[..n][i] == docs[i] && labels[..n][i] == labels[i];
      var pre := ClusterOf(docs[..n], labels[..n], c);
      var tail := if labels[n] == c then [docs[n].abstractText] else [];
      assert ClusterOf(docs, labels, c) == pre + tail;
      assert AllEmpty(pre + tail) <==> AllEmpty(pre) && AllEmpty(tail) by {
        if AllEmpty(pre + tail) {
          forall i | 0 <= i < |pre| ensures pre[i] == "" {
            assert (pre + tail)[i] == pre[i];
          }
          forall i | 0 <= i < |tail| ensures tail[i] == "" {
            assert (pre + tail)[|pre| + i] == tail[i];
          }
        }
      }
      if AllEmpty(pre + tail) {
        forall i | 0 <= i < |docs| && labels[i] == c ensures docs[i].abstractText == "" {
          if i < n {
            assert AllEmpty(pre);
            assert labels[..n][i] == c && docs[..n][i] == docs[i];
          } else {
            assert tail == [docs[n].abstractText];
            assert (pre + tail)[|pre|] == tail[0];
          }
        }
      }
    }
  }

  /** `generate_subtopic_names`: group the abstracts by label, then name each
      group. */
  method GenerateSubtopicNames(docs: seq<Document>, labels: seq<nat>, nClusters: nat,
                               vocabulary: seq<string> -> Option<seq<string>>)
    returns (names: seq<string>)
    requires |labels| == |docs|
    requires forall i :: 0 <= i < |labels| ==> labels[i] < nClusters
    ensures |names| == nClusters
    ensures forall c :: 0 <= c < nClusters ==> names[c] == ClusterName(ClusterOf(docs, labels, c), vocabulary)
    ensures forall c :: 0 <= c < nClusters ==>
      (forall i :: 0 <= i < |docs| && labels[i] == c ==> docs[i].abstractText == "") ==>
      names[c] == Miscellaneous
  {
    var clusters: seq<seq<string>> := seq(nClusters, _ => []);
    var i := 0;
    while i < |docs|
      invariant 0 <= i <= |docs|
      invariant |clusters| == nClusters
      invariant forall c :: 0 <= c < nClusters ==> clusters[c] == ClusterOf(docs[..i], labels[..i], c)
    {
      var l := labels[i];
      clusters := clusters[l := clusters[l] + [docs[i].abstractText]];
      i := i + 1;
      assert docs[..i][..i - 1] == docs[..i - 1];
      assert labels[..i][..i - 1] == labels[..i - 1];
    }
    assert docs[..i] == docs && labels[..i] == labels;
    names := [];
    var c := 0;
    while c < nClusters
      invariant 0 <= c <= nClusters
      invariant |names| == c
      invariant forall j :: 0 <= j < c ==> names[j] == ClusterName(clusters[j], vocabulary)
    {
      var cluster := clusters[c];
      if cluster == [] || AllEmpty(cluster) {
        names := names + [Miscellaneous];
      } else {
        match vocabulary(cluster) {
          case None =>
            names := names + [Miscellaneous];
          case Some(featureNames) =>
            names := names + [Join(if |featureNames| <= 2 then featureNames else featureNames[..2], " ")];
        }
      }
      c := c + 1;
    }
    forall c | 0 <= c < nClusters
      ensures (forall i :: 0 <= i < |docs| && labels[i] == c ==> docs[i].abstractText == "")
              ==> names[c] == Miscellaneous
    {
      ClusterEmptyIff(docs, labels, c);
    }
  }

  // ---------------------------------------------------------------------------
  // Assigning a label to every document

  /** The label document `i` receives. */
  function SubTopicOf(docs: seq<Document>, clustered: bool, labels: seq<nat>, i: nat,
                      vocabulary: seq<string> -> Option<seq<string>>): string
    requires i < |docs|
    requires clustered ==> |labels| == |docs|
  {
    if clustered then ClusterName(ClusterOf(docs, labels, labels[i]), vocabulary) else Miscellaneous
  }

  /** Lines 149-161: cluster when possible, otherwise label everything
      "Miscellaneous"; every document keeps its other fields. */
  method AssignSubTopics<V>(docs: seq<Document>, vectors: seq<V>, finite: V -> bool,
                            labels: seq<nat>, vocabulary: seq<string> -> Option<seq<string>>)
    returns (labelled: seq<Document>)
    requires |vectors| == |docs|
    requires Clusterable(vectors, finite) ==>
      |labels| == |docs| && forall i :: 0 <= i < |labels| ==> labels[i] < NumClusters(|vectors|)
    ensures |labelled| == |docs|
    ensures forall i :: 0 <= i < |docs| ==>
      labelled[i] == docs[i].(subTopic := Some(SubTopicOf(docs, Clusterable(vectors, finite), labels, i, vocabulary)))
    ensures !Clusterable(vectors, finite) ==>
      forall i :: 0 <= i < |docs| ==> labelled[i].subTopic == Some(Miscellaneous)
  {
    labelled := docs;
    if |vectors| > 0 && |vectors| > 1 && (forall i :: 0 <= i < |vectors| ==> finite(vectors[i])) {
      var nClusters := NumClusters(|vectors|);
      var names := GenerateSubtopicNames(docs, labels, nClusters, vocabulary);
      var i := 0;
      while i < |docs|
        invariant 0 <= i <= |docs| && |labelled| == |docs|
        invariant forall j :: 0 <= j < i ==> labelled[j] == docs[j].(subTopic := Some(names[labels[j]]))
        invariant forall j :: i <= j < |docs| ==> labelled[j] == docs[j]
      {
        labelled := labelled[i := labelled[i].(subTopic := Some(names[labels[i]]))];
        i := i + 1;
      }
    } else {
      var i := 0;
      while i < |docs|
        invariant 0 <= i <= |docs| && |labelled| == |docs|
        invariant forall j :: 0 <= j < i ==> labelled[j] == docs[j].(subTopic := Some(Miscellaneous))
        invariant forall j :: i <= j < |docs| ==> labelled[j] == docs[j]
      {
        labelled := labelled[i := labelled[i].(subTopic := Some(Miscellaneous))];
        i := i + 1;
      }
    }
  }
}
