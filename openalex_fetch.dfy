/** `fetch_openalex_papers` (backend/app/fetch_openalex.py, lines 5-49): page
    through OpenAlex's `/works` listing with a cursor, turning each work into a
    paper record with defaults for what the work leaves out, until `limit`
    papers are collected, a page fails, or the cursor runs out.

    The HTTP responses are a parameter: the sequence of pages the server
    answers, in request order. */
module OpenAlexFetch {
  import opened Wrappers
  import opened Strings
  import opened Dates
  import opened OpenAlexAbstract

  /** A JSON member: absent from its object, present as `null`, or a value. */
  datatype Field<T> = Absent | Null | Value(value: T)

  /** The `primary_topic` object; an empty object is `Topic(Absent)`. */
  datatype Topic = Topic(displayName: Field<string>)

  /** The members of a work the script reads. */
  datatype Work = Work(
    title: Field<string>,
    abstractIndex: Field<Index>,
    publicationYear: Field<int>,
    citedByCount: Field<int>,
    primaryTopic: Field<Topic>)

  /** A row of `papers.csv`; `None` is Python's `None`. */
  datatype Paper = Paper(
    title: Option<string>,
    abstractText: string,
    publicationDate: string,
    citationCount: Option<int>,
    field: Option<string>)

  /** One response: its status code, `results` and `meta.next_cursor`. */
  datatype Page = Page(status: int, results: seq<Work>, nextCursor: Field<string>)

  /** `work.get(key, default)`. */
  function Get<T>(f: Field<T>, default: T): (r: Option<T>)
    ensures f.Absent? ==> r == Some(default)
    ensures f.Null? ==> r == None
    ensures f.Value? ==> r == Some(f.value)
  {
    match f
    case Absent => Some(default)
    case Null => None
    case Value(v) => Some(v)
  }

  /** Line 37: `(work.get("primary_topic") or {}).get("display_name", "Unknown")`. */
  function FieldOfResearch(topic: Field<Topic>): Option<string>
  {
    match topic
    case Value(t) => Get(t.displayName, "Unknown")
    case _ => Some("Unknown")
  }

  /** Line 41: `str(work.get("publication_year", "1970"))`. */
  function PublicationDate(year: Field<int>): string
  {
    match year
    case Absent => "1970"
    case Null => "None"
    case Value(y) => IntToString(y)
  }

  /** Line 24: `work.get("abstract_inverted_index", {})`. */
  function AbstractIndex(f: Field<Index>): Option<Index>
  {
    Get(f, [])
  }

  /** Lines 23-44: the paper a work becomes. */
  function PaperOf(w: Work): Paper
  {
    Paper(Get(w.title, ""), AbstractText(AbstractIndex(w.abstractIndex)), PublicationDate(w.publicationYear),
          Get(w.citedByCount, 0), FieldOfResearch(w.primaryTopic))
  }

  function PapersOf(works: seq<Work>): (r: seq<Paper>)
    ensures |r| == |works|
    ensures forall i :: 0 <= i < |works| ==> r[i] == PaperOf(works[i])
  {
    seq(|works|, i requires 0 <= i < |works| => PaperOf(works[i]))
  }

  /** `not cursor` is false: a non-empty string. */
  predicate HasCursor(c: Field<string>)
  {
    c.Value? && |c.value| > 0
  }

  /** The works of the pages that are read: pages are read in order while they
      answer 200; a page's results are all taken, and the next page is read
      only when the page gives a cursor. */
  function Served(pages: seq<Page>): seq<Work>
  {
    if |pages| == 0 || pages[0].status != 200 then []
    else pages[0].results + (if HasCursor(pages[0].nextCursor) then Served(pages[1..]) else [])
  }

  /** The first `limit` elements (none when `limit` is not positive). */
  function Take<T>(xs: seq<T>, limit: int): (r: seq<T>)
    ensures |r| == if limit <= 0 then 0 else if limit < |xs| then limit else |xs|
    ensures r == xs[..|r|]
  {
    if limit <= 0 then [] else if limit < |xs| then xs[..limit] else xs
  }

  lemma TakeAppend<T>(a: seq<T>, b: seq<T>, limit: int)
    ensures |a| >= limit ==> Take(a + b, limit) == Take(a, limit)
    ensures |a| < limit ==> Take(a + b, limit) == a + Take(b, limit - |a|)
  {
    if |a| >= limit && limit > 0 {
      assert (a + b)[..limit] == a[..limit];
    }
  }

  lemma PapersAppend(a: seq<Work>, b: seq<Work>)
    ensures PapersOf(a + b) == PapersOf(a) + PapersOf(b)
  {
  }

  /** Reading the page at `p` when it answers 200. */
  lemma ServedStep(pages: seq<Page>, p: nat)
    requires p < |pages| && pages[p].status == 200
    ensures Served(pages[p..]) == pages[p].results + (if HasCursor(pages[p].nextCursor) then Served(pages[p + 1..]) else [])
  {
    assert pages[p..][1..] == pages[p + 1..];
  }

  /** Lines 20-45: the papers of one page's results, appended while fewer
      than `limit` are collected. */
  method AppendPapers(papers: seq<Paper>, works: seq<Work>, limit: int) returns (r: seq<Paper>)
    requires |papers| < limit
    ensures r == papers + Take(PapersOf(works), limit - |papers|)
  {
    r := papers;
    var count := |papers|;
    var k := 0;
    while k < |works|
      invariant 0 <= k <= |works|
      invariant count == |r| <= limit
      invariant r == papers + PapersOf(works[..k])
    {
      if count >= limit {
        break;
      }
      assert works[..k + 1] == works[..k] + [works[k]];
      PapersAppend(works[..k], [works[k]]);
      r := r + [PaperOf(works[k])];
      count := count + 1;
      k := k + 1;
    }
    assert works == works[..k] + works[k..];
    PapersAppend(works[..k], works[k..]);
    TakeAppend(PapersOf(works[..k]), PapersOf(works[k..]), limit - |papers|);
  }

  /** Lines 5-49: the papers collected from the pages the server answers. */
  method FetchPapers(pages: seq<Page>, limit: int) returns (papers: seq<Paper>)
    ensures papers == Take(PapersOf(Served(pages)), limit)
    ensures |papers| <= if limit < 0 then 0 else limit
  {
    papers := [];
    var count := 0;
    var p := 0;
    ghost var read: seq<Work> := [];
    while count < limit && p < |pages|
      invariant 0 <= p <= |pages|
      invariant count == |papers|
      invariant Served(pages) == read + Served(pages[p..])
      invariant papers == Take(PapersOf(read), limit)
      decreases |pages| - p
    {
      var page := pages[p];
      if page.status != 200 {
        assert Served(pages[p..]) == [];
        break;
      }
      ServedStep(pages, p);
      papers := AppendPapers(papers, page.results, limit);
      count := |papers|;
      ghost var before := read;
      read := read + page.results;
      PapersAppend(before, page.results);
      TakeAppend(PapersOf(before), PapersOf(page.results), limit);
      if !HasCursor(page.nextCursor) {
        assert Served(pages) == read;
        break;
      }
      p := p + 1;
    }
    if p == |pages| {
      assert Served(pages[p..]) == [];
    } else {
      PapersAppend(read, Served(pages[p..]));
      TakeAppend(PapersOf(read), PapersOf(Served(pages[p..])), limit);
    }
  }

  // ---------------------------------------------------------------------------
  // Properties of the collected papers

  /** Every work read comes from a page that answered 200 and that is reached
      through pages that all answered 200 and gave a cursor. */
  lemma {:induction false} ServedFromReadPages(pages: seq<Page>, w: Work)
    requires w in Served(pages)
    ensures exists j :: (0 <= j < |pages| && pages[j].status == 200 && w in pages[j].results
                         && forall i :: 0 <= i < j ==> pages[i].status == 200 && HasCursor(pages[i].nextCursor))
  {
    if w !in pages[0].results {
      var rest := pages[1..];
      ServedFromReadPages(rest, w);
      var j :| 0 <= j < |rest| && rest[j].status == 200 && w in rest[j].results
        && forall i :: 0 <= i < j ==> rest[i].status == 200 && HasCursor(rest[i].nextCursor);
      assert pages[j + 1] == rest[j];
      assert forall i :: 1 <= i < j + 1 ==> pages[i] == rest[i - 1];
    } else {
      assert pages[0].status == 200;
    }
  }

  /** The results of the pages, one after the other. */
  function Results(pages: seq<Page>): seq<Work>
  {
    if |pages| == 0 then [] else Results(pages[..|pages| - 1]) + pages[|pages| - 1].results
  }

  lemma {:induction false} ResultsCons(pages: seq<Page>)
    requires |pages| > 0
    ensures Results(pages) == pages[0].results + Results(pages[1..])
  {
    var n := |pages| - 1;
    if n > 0 {
      ResultsCons(pages[..n]);
      assert pages[..n][1..] == pages[1..][..n - 1];
      assert pages[..n][0] == pages[0];
    } else {
      assert Results(pages[..0]) == [];
    }
  }

  /** Where reading stops: when the pages before `j` all answered 200 with a
      cursor, a failing page `j` leaves the results of the pages before it,
      and a page `j` without a cursor adds its own results and stops. */
  lemma {:induction false} ServedStops(pages: seq<Page>, j: nat)
    requires j < |pages|
    requires forall i :: 0 <= i < j ==> pages[i].status == 200 && HasCursor(pages[i].nextCursor)
    requires pages[j].status != 200 || !HasCursor(pages[j].nextCursor)
    ensures pages[j].status != 200 ==> Served(pages) == Results(pages[..j])
    ensures pages[j].status == 200 ==> Served(pages) == Results(pages[..j + 1])
  {
    if j == 0 {
      assert Results(pages[..0]) == [];
      assert Results(pages[..1]) == Results(pages[..0]) + pages[0].results;
    } else {
      ServedStops(pages[1..], j - 1);
      assert pages[..j][1..] == pages[1..][..j - 1];
      assert pages[..j + 1][1..] == pages[1..][..j];
      ResultsCons(pages[..j]);
      ResultsCons(pages[..j + 1]);
    }
  }

  /** A larger limit collects the same papers first. */
  lemma LimitPrefix(pages: seq<Page>, small: int, large: int)
    requires small <= large
    ensures Take(PapersOf(Served(pages)), small) == Take(PapersOf(Served(pages)), large)[..|Take(PapersOf(Served(pages)), small)|]
  {
  }

  /** The defaults of a work's members: an absent title is "", an absent
      year "1970" and a null one "None", an absent count 0, and an absent or
      null topic, or a topic without a name, "Unknown"; a null member is
      carried as `None`. */
  lemma PaperDefaults(w: Work)
    ensures w.title.Absent? ==> PaperOf(w).title == Some("")
    ensures w.title.Null? ==> PaperOf(w).title == None
    ensures w.publicationYear.Absent? ==> PaperOf(w).publicationDate == "1970"
    ensures w.publicationYear.Null? ==> PaperOf(w).publicationDate == "None"
    ensures w.publicationYear.Value? ==> PaperOf(w).publicationDate == IntToString(w.publicationYear.value)
    ensures w.citedByCount.Absent? ==> PaperOf(w).citationCount == Some(0)
    ensures w.citedByCount.Null? ==> PaperOf(w).citationCount == None
    ensures (w.primaryTopic.Absent? || w.primaryTopic.Null? || w.primaryTopic == Value(Topic(Absent))) ==>
      PaperOf(w).field == Some("Unknown")
    ensures w.primaryTopic == Value(Topic(Null)) ==> PaperOf(w).field == None
  {
  }

  /** A missing, null or empty inverted index gives an empty abstract, and
      the inverted index of a word sequence gives the words back. */
  lemma FetchedAbstract(w: Work, words: seq<string>)
    ensures w.abstractIndex in {Absent, Null, Value([])} ==> PaperOf(w).abstractText == ""
    ensures w.abstractIndex == Value(InvertedIndex(words)) ==> PaperOf(w).abstractText == Join(words, " ")
  {
    var index := AbstractIndex(w.abstractIndex);
    assert PaperOf(w).abstractText == AbstractText(index);
    if w.abstractIndex in {Absent, Null, Value([])} {
      NoIndexNoAbstract(index);
    }
    if w.abstractIndex == Value(InvertedIndex(words)) {
      RoundTrip(words);
    }
  }

  /** `str(n)` of a four-digit year has four characters. */
  lemma FourDigits(y: nat)
    requires 1000 <= y < 10000
    ensures |NatToString(y)| == 4
  {
    assert |NatToString(y / 1000)| == 1;
    assert |NatToString(y / 100)| == 2 by {
      assert (y / 100) / 10 == y / 1000;
    }
    assert |NatToString(y / 10)| == 3 by {
      assert (y / 10) / 10 == y / 100;
    }
  }

  /** The ingestion step later turns the publication date of a fetched paper
      into January 1st of its year when the year has four digits (or is
      missing), and leaves a null year's "None" as it is. */
  lemma FetchedDateConverted(w: Work)
    ensures (w.publicationYear.Absent? || (w.publicationYear.Value? && 1000 <= w.publicationYear.value < 10000)) ==>
      ConvertDate(PaperOf(w).publicationDate) == PaperOf(w).publicationDate + "-01-01"
    ensures w.publicationYear.Null? ==> ConvertDate(PaperOf(w).publicationDate) == "None"
  {
    var date := PaperOf(w).publicationDate;
    match w.publicationYear
    case Absent =>
      ConvertYear(date);
    case Null =>
      assert IndexOf(date, '-').None?;
    case Value(y) =>
      if 1000 <= y < 10000 {
        FourDigits(y);
        ConvertYear(date);
      }
  }
}
