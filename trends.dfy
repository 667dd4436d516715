/** The trend table of a search response (backend/app/main.py, lines 163-165):
    for every sub-topic, how many returned documents carry each publication
    date. */
module Trends {
  import opened Wrappers
  import opened Sums
  import opened SubTopics

  /** sub-topic -> publication date -> number of documents. */
  type Table = map<string, map<string, nat>>

  /** Every document has been given a sub-topic. */
  predicate Labelled(docs: seq<Document>)
  {
    forall i :: 0 <= i < |docs| ==> docs[i].subTopic.Some?
  }

  /** `trends[topic][date] += 1` on a table whose missing entries read 0. */
  function Bump(t: Table, topic: string, date: string): Table
  {
    var inner := if topic in t then t[topic] else map[];
    t[topic := inner[date := (if date in inner then inner[date] else 0) + 1]]
  }

  /** The table after counting `docs` in order. */
  function Tally(docs: seq<Document>): Table
    requires Labelled(docs)
  {
    if |docs| == 0 then map[]
    else
      var n := |docs| - 1;
      Bump(Tally(docs[..n]), docs[n].subTopic.value, docs[n].pubDate)
  }

  /** The number of documents with sub-topic `t` and publication date `d`. */
  function Count(docs: seq<Document>, t: string, d: string): nat
    requires Labelled(docs)
  {
    if |docs| == 0 then 0
    else
      var n := |docs| - 1;
      Count(docs[..n], t, d) + (if docs[n].subTopic.value == t && docs[n].pubDate == d then 1 else 0)
  }

  /** The number of documents with sub-topic `t` whose date satisfies `p`. */
  function CountWhere(docs: seq<Document>, t: string, p: string -> bool): nat
    requires Labelled(docs)
  {
    if |docs| == 0 then 0
    else
      var n := |docs| - 1;
      CountWhere(docs[..n], t, p) + (if docs[n].subTopic.value == t && p(docs[n].pubDate) then 1 else 0)
  }

  /** The loop of lines 163-165. */
  method ComputeTrends(docs: seq<Document>) returns (trends: Table)
    requires Labelled(docs)
    ensures trends == Tally(docs)
    ensures forall t, d :: t in trends && d in trends[t] ==> trends[t][d] == Count(docs, t, d) > 0
  {
    trends := map[];
    var i := 0;
    while i < |docs|
      invariant 0 <= i <= |docs|
      invariant trends == Tally(docs[..i])
    {
      var doc := docs[i];
      var topic, date := doc.subTopic.value, doc.pubDate;
      var inner := if topic in trends then trends[topic] else map[];
      trends := trends[topic := inner[date := (if date in inner then inner[date] else 0) + 1]];
      i := i + 1;
      assert docs[..i][..i - 1] == docs[..i - 1];
    }
    assert docs[..i] == docs;
    forall t, d | t in trends && d in trends[t] ensures trends[t][d] == Count(docs, t, d) > 0 {
      TallyCount(docs, t, d);
    }
  }

  // ---------------------------------------------------------------------------
  // What the table holds

  /** An entry exists exactly for the (sub-topic, date) pairs that occur, and
      holds the number of their documents. */
  lemma {:induction false} TallyCount(docs: seq<Document>, t: string, d: string)
    requires Labelled(docs)
    ensures (t in Tally(docs) && d in Tally(docs)[t]) <==> Count(docs, t, d) > 0
    ensures t in Tally(docs) && d in Tally(docs)[t] ==> Tally(docs)[t][d] == Count(docs, t, d)
  {
    if |docs| > 0 {
      var n := |docs| - 1;
      assert Labelled(docs[..n]);
      TallyCount(docs[..n], t, d);
    }
  }

  /** A sub-topic is a key exactly when some document carries it. */
  lemma {:induction false} TallyTopics(docs: seq<Document>, t: string)
    requires Labelled(docs)
    ensures t in Tally(docs) <==> exists i :: 0 <= i < |docs| && docs[i].subTopic == Some(t)
  {
    if |docs| > 0 {
      var n := |docs| - 1;
      assert Labelled(docs[..n]);
      TallyTopics(docs[..n], t);
      if exists i :: 0 <= i < n && docs[..n][i].subTopic == Some(t) {
        var i :| 0 <= i < n && docs[..n][i].subTopic == Some(t);
        assert docs[i].subTopic == Some(t);
      }
      if exists i :: 0 <= i < |docs| && docs[i].subTopic == Some(t) {
        var i :| 0 <= i < |docs| && docs[i].subTopic == Some(t);
        if i < n {
          assert docs[..n][i].subTopic == Some(t);
        }
      }
    }
  }

  /** Document counts per sub-topic. */
  ghost function Totals(t: Table): map<string, nat>
  {
    map topic | topic in t :: SumValues(t[topic])
  }

  /** One more count anywhere adds one to the total. */
  lemma BumpInner(inner: map<string, nat>, date: string)
    ensures SumValues(inner[date := (if date in inner then inner[date] else 0) + 1]) == SumValues(inner) + 1
  {
    SumValuesUpdate(inner, date, (if date in inner then inner[date] else 0) + 1);
  }

  /** Counting one more document adds one to the total of the table. */
  lemma TotalsBump(t: Table, topic: string, date: string)
    ensures SumValues(Totals(Bump(t, topic, date))) == SumValues(Totals(t)) + 1
  {
    var inner: map<string, nat> := if topic in t then t[topic] else map[];
    var newInner := inner[date := (if date in inner then inner[date] else 0) + 1];
    BumpInner(inner, date);
    var totals := Totals(t);
    assert Totals(Bump(t, topic, date)) == totals[topic := SumValues(newInner)];
    SumValuesUpdate(totals, topic, SumValues(newInner));
    if topic !in t {
      SumValuesEmpty(inner);
    }
  }

  /** All entries of the table add up to the number of documents. */
  lemma {:induction false} TallyTotal(docs: seq<Document>)
    requires Labelled(docs)
    ensures SumValues(Totals(Tally(docs))) == |docs|
  {
    if |docs| == 0 {
      SumValuesEmpty(Totals(map[]));
    } else {
      var n := |docs| - 1;
      assert Labelled(docs[..n]);
      TallyTotal(docs[..n]);
      TotalsBump(Tally(docs[..n]), docs[n].subTopic.value, docs[n].pubDate);
    }
  }

  /** One more count on `date` adds one to the restricted total exactly when
      `date` satisfies `p`. */
  lemma RestrictBump(inner: map<string, nat>, date: string, p: string -> bool)
    ensures SumValues(Restrict(inner[date := (if date in inner then inner[date] else 0) + 1], p))
         == SumValues(Restrict(inner, p)) + (if p(date) then 1 else 0)
  {
    var v := (if date in inner then inner[date] else 0) + 1;
    var r := Restrict(inner, p);
    if p(date) {
      assert Restrict(inner[date := v], p) == r[date := v];
      SumValuesUpdate(r, date, v);
    } else {
      assert Restrict(inner[date := v], p) == r;
    }
  }

  /** The counts of one sub-topic, over the dates that satisfy `p`, add up to
      the number of its documents with such a date. */
  lemma {:induction false} TallyRestricted(docs: seq<Document>, t: string, p: string -> bool)
    requires Labelled(docs)
    ensures SumValues(Restrict(if t in Tally(docs) then Tally(docs)[t] else map[], p)) == CountWhere(docs, t, p)
  {
    if |docs| == 0 {
      SumValuesEmpty(Restrict(map[], p));
    } else {
      var n := |docs| - 1;
      assert Labelled(docs[..n]);
      TallyRestricted(docs[..n], t, p);
      var prev := Tally(docs[..n]);
      var topic, date := docs[n].subTopic.value, docs[n].pubDate;
      if topic == t {
        var inner: map<string, nat> := if topic in prev then prev[topic] else map[];
        RestrictBump(inner, date, p);
        assert Tally(docs)[t] == inner[date := (if date in inner then inner[date] else 0) + 1];
      } else {
        assert (t in Tally(docs)) == (t in prev);
        assert t in prev ==> Tally(docs)[t] == prev[t];
      }
    }
  }
}
