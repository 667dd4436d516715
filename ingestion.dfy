/** The row preprocessing of the ingestion script
    (backend/app/data_ingestion.py, lines 100-135): tag each row with its
    document type, convert the dates, give papers positional ids, concatenate
    patents before papers, fill the missing values, standardize the research
    field, repair empty ids from the row position and build the text that is
    embedded. Reading the CSV files, the encoder and the index are left out;
    rows are records whose cells may be missing. */
module Ingestion {
  import opened Wrappers
  import opened Strings
  import opened FieldStandardization
  import opened Dates

  /** A row of the patents file. */
  datatype PatentRow = PatentRow(
    id: Cell,
    title: Option<string>,
    abstractText: Option<string>,
    date: Cell,
    citations: Option<int>,
    field: Cell)

  /** A row of the papers file; papers have no id column. */
  datatype PaperRow = PaperRow(
    title: Option<string>,
    abstractText: Option<string>,
    date: Cell,
    citations: Option<int>,
    field: Cell)

  /** A row of the concatenated frame before missing values are filled. */
  datatype RawRow = RawRow(
    id: Cell,
    title: Option<string>,
    abstractText: Option<string>,
    docType: string,
    pubDate: string,
    citations: Option<int>,
    field: Cell)

  /** A row as it is inserted into the index (without its vector). */
  datatype Record = Record(
    id: string,
    title: string,
    abstractText: string,
    docType: string,
    pubDate: string,
    citationCount: int,
    field: string,
    embeddingText: string)

  /** Line 115: the id of the `j`-th paper. */
  function PaperId(j: nat): (id: string)
    ensures |id| > 6 && id[..6] == "paper_"
    ensures IsDigits(id[6..]) && ParseNat(id[6..]) == j
  {
    ParseNatToString(j);
    var id := "paper_" + NatToString(j);
    assert id[6..] == NatToString(j);
    id
  }

  /** Line 129: the ids the mask selects, empty or missing. */
  predicate Blank(c: Cell)
  {
    c == Missing || c == Text("")
  }

  /** Lines 129-131: a blank id becomes `doc_<row index>`; any other id is
      kept and turned into text. */
  function RepairedId(c: Cell, i: nat): (id: string)
    ensures Blank(c) ==> id == "doc_" + NatToString(i)
    ensures !Blank(c) ==> id == Str(c)
  {
    if Blank(c) then "doc_" + NatToString(i) else Str(c)
  }

  /** Lines 120-126: a missing field reads "Unknown" and is then standardized. */
  function FieldOf(c: Cell): string
  {
    StandardizeField(if c.Missing? then Text(Unknown) else c)
  }

  /** Line 135. */
  function EmbeddingText(title: string, abstractText: string): (r: string)
    ensures |r| == |title| + 2 + |abstractText|
    ensures r[..|title|] == title && r[|title|..|title| + 2] == ". " && r[|title| + 2..] == abstractText
  {
    title + ". " + abstractText
  }

  /** Lines 100 and 108-113: a patent typed, with its converted date. */
  function PatentRaw(p: PatentRow, date: string): RawRow
  {
    RawRow(p.id, p.title, p.abstractText, "patent", date, p.citations, p.field)
  }

  /** Lines 101 and 114-117: the `j`-th paper typed, with its converted date
      and its positional id. */
  function PaperRaw(p: PaperRow, j: nat, date: string): RawRow
  {
    RawRow(Text(PaperId(j)), p.title, p.abstractText, "paper", date, p.citations, p.field)
  }

  /** Line 119: the row `i` of the concatenated frame, patents first, with
      the dates converted by lines 104-105. */
  function RawRowAt(patents: seq<PatentRow>, papers: seq<PaperRow>, i: nat): RawRow
    requires i < |patents| + |papers|
  {
    if i < |patents| then PatentRaw(patents[i], ConvertCell(patents[i].date))
    else
      var j := i - |patents|;
      PaperRaw(papers[j], j, ConvertCell(papers[j].date))
  }

  /** Lines 120-135 on one row at position `i`. */
  function Finish(r: RawRow, i: nat): Record
  {
    Complete(r, i, FieldOf(r.field))
  }

  /** Lines 120-123 and 128-135 on one row, given its standardized field. */
  function Complete(r: RawRow, i: nat, field: string): Record
  {
    var title, abstractText := r.title.GetOr(""), r.abstractText.GetOr("");
    Record(RepairedId(r.id, i), title, abstractText, r.docType, r.pubDate,
           r.citations.GetOr(0), field, EmbeddingText(title, abstractText))
  }

  /** The frame the script inserts. */
  ghost function Ingested(patents: seq<PatentRow>, papers: seq<PaperRow>): (data: seq<Record>)
    ensures |data| == |patents| + |papers|
    ensures forall i :: 0 <= i < |data| ==> data[i] == Finish(RawRowAt(patents, papers, i), i)
  {
    seq(|patents| + |papers|, i requires 0 <= i < |patents| + |papers| => Finish(RawRowAt(patents, papers, i), i))
  }

  // ---------------------------------------------------------------------------
  // The script's steps

  /** `Series.apply`: `f` applied to every cell of a column. */
  method Apply<A, B>(column: seq<A>, f: A -> B) returns (r: seq<B>)
    ensures |r| == |column|
    ensures forall k :: 0 <= k < |column| ==> r[k] == f(column[k])
  {
    r := [];
    var i := 0;
    while i < |column|
      invariant 0 <= i <= |column| && |r| == i
      invariant forall k :: 0 <= k < i ==> r[k] == f(column[k])
    {
      r := r + [f(column[i])];
      i := i + 1;
    }
  }

  /** Line 100: type the patents, given their converted dates. */
  method PreparePatents(patents: seq<PatentRow>, dates: seq<string>) returns (raw: seq<RawRow>)
    requires |dates| == |patents|
    ensures |raw| == |patents|
    ensures forall i :: 0 <= i < |raw| ==> raw[i] == PatentRaw(patents[i], dates[i])
  {
    raw := [];
    var i := 0;
    while i < |patents|
      invariant 0 <= i <= |patents| && |raw| == i
      invariant forall k :: 0 <= k < i ==> raw[k] == PatentRaw(patents[k], dates[k])
    {
      raw := raw + [PatentRaw(patents[i], dates[i])];
      i := i + 1;
    }
  }

  /** Lines 101 and 115: type the papers, given their converted dates, and
      number them. */
  method PreparePapers(papers: seq<PaperRow>, dates: seq<string>) returns (raw: seq<RawRow>)
    requires |dates| == |papers|
    ensures |raw| == |papers|
    ensures forall j :: 0 <= j < |raw| ==> raw[j] == PaperRaw(papers[j], j, dates[j])
  {
    raw := [];
    var j := 0;
    while j < |papers|
      invariant 0 <= j <= |papers| && |raw| == j
      invariant forall k :: 0 <= k < j ==> raw[k] == PaperRaw(papers[k], k, dates[k])
    {
      raw := raw + [PaperRaw(papers[j], j, dates[j])];
      j := j + 1;
    }
  }

  /** Lines 100-119: convert the dates, type the rows, number the papers and
      put them after the patents. */
  method Concatenate(patents: seq<PatentRow>, papers: seq<PaperRow>) returns (raw: seq<RawRow>)
    ensures |raw| == |patents| + |papers|
    ensures forall i :: 0 <= i < |raw| ==> raw[i] == RawRowAt(patents, papers, i)
  {
    var patentDates := Apply(seq(|patents|, k requires 0 <= k < |patents| => patents[k].date), ConvertCell);
    var paperDates := Apply(seq(|papers|, k requires 0 <= k < |papers| => papers[k].date), ConvertCell);
    var a := PreparePatents(patents, patentDates);
    var b := PreparePapers(papers, paperDates);
    raw := a + b;
    forall i | 0 <= i < |raw| ensures raw[i] == RawRowAt(patents, papers, i) {
      if i >= |a| {
        assert raw[i] == b[i - |a|];
      }
    }
  }

  /** Lines 120-123 and 128-135 over the whole frame, given the standardized
      fields of line 126. */
  method FinishRows(raw: seq<RawRow>, fields: seq<string>) returns (data: seq<Record>)
    requires |fields| == |raw|
    ensures |data| == |raw|
    ensures forall i :: 0 <= i < |raw| ==> data[i] == Complete(raw[i], i, fields[i])
  {
    data := [];
    var i := 0;
    while i < |raw|
      invariant 0 <= i <= |raw| && |data| == i
      invariant forall k :: 0 <= k < i ==> data[k] == Complete(raw[k], k, fields[k])
    {
      var r := raw[i];
      var title, abstractText := r.title.GetOr(""), r.abstractText.GetOr("");
      data := data + [Record(RepairedId(r.id, i), title, abstractText, r.docType, r.pubDate,
                             r.citations.GetOr(0), fields[i], EmbeddingText(title, abstractText))];
      i := i + 1;
    }
  }

  /** The preprocessing as a whole. */
  method Preprocess(patents: seq<PatentRow>, papers: seq<PaperRow>) returns (data: seq<Record>)
    ensures data == Ingested(patents, papers)
  {
    var raw := Concatenate(patents, papers);
    var fields := Apply(seq(|raw|, k requires 0 <= k < |raw| => raw[k].field), FieldOf);
    data := FinishRows(raw, fields);
  }

  // ---------------------------------------------------------------------------
  // What the inserted rows satisfy

  /** A non-blank cell has non-empty text. */
  lemma StrNonEmpty(c: Cell)
    requires !Blank(c)
    ensures Str(c) != ""
  {
    if c.Int? {
      assert |NatToString(if c.i < 0 then -c.i else c.i)| > 0;
    }
  }

  /** Every inserted row has a non-empty id. */
  lemma IdsNonEmpty(patents: seq<PatentRow>, papers: seq<PaperRow>, i: nat)
    requires i < |patents| + |papers|
    ensures Ingested(patents, papers)[i].id != ""
  {
    var r := RawRowAt(patents, papers, i);
    if !Blank(r.id) {
      StrNonEmpty(r.id);
    }
  }

  /** The papers keep their positional ids `paper_0`, `paper_1`, ... */
  lemma PaperIds(patents: seq<PatentRow>, papers: seq<PaperRow>, j: nat)
    requires j < |papers|
    ensures Ingested(patents, papers)[|patents| + j].id == PaperId(j)
    ensures Ingested(patents, papers)[|patents| + j].docType == "paper"
  {
  }

  /** Distinct papers get distinct ids. */
  lemma PaperIdsDistinct(j: nat, k: nat)
    requires j != k
    ensures PaperId(j) != PaperId(k)
  {
  }

  /** Patents keep every id that is not blank, as text. */
  lemma PatentIdsKept(patents: seq<PatentRow>, papers: seq<PaperRow>, i: nat)
    requires i < |patents|
    ensures Ingested(patents, papers)[i].id == RepairedId(patents[i].id, i)
    ensures Ingested(patents, papers)[i].docType == "patent"
  {
  }

  /** Two patents with the same non-blank id keep it: the script does not make
      ids unique. */
  lemma DuplicateIdsKept(patents: seq<PatentRow>, papers: seq<PaperRow>, i: nat, k: nat)
    requires i < k < |patents| && patents[i].id == patents[k].id && !Blank(patents[i].id)
    ensures Ingested(patents, papers)[i].id == Ingested(patents, papers)[k].id
  {
  }

  /** Ids of the forms the script generates. */
  predicate Generated(id: string)
  {
    (|id| >= 4 && id[..4] == "doc_") || (|id| >= 6 && id[..6] == "paper_")
  }

  /** Two patent rows get different ids when their ids, if not blank, differ
      as text and do not look generated. */
  lemma PatentIdsDistinct(a: Cell, i: nat, b: Cell, k: nat)
    requires i != k
    requires !Blank(a) && !Blank(b) ==> Str(a) != Str(b)
    requires !Blank(a) ==> !Generated(Str(a))
    requires !Blank(b) ==> !Generated(Str(b))
    ensures RepairedId(a, i) != RepairedId(b, k)
  {
    if Blank(a) && Blank(b) {
      DocIdsDistinct(i, k);
    }
  }

  /** A patent row and a paper row get different ids when the patent's id, if
      not blank, does not look generated. */
  lemma PatentPaperIdsDistinct(a: Cell, i: nat, j: nat)
    requires !Blank(a) ==> !Generated(Str(a))
    ensures RepairedId(a, i) != PaperId(j)
  {
    var x, y := RepairedId(a, i), PaperId(j);
    if Blank(a) {
      assert x[..4] == "doc_" && y[..4] == "pape";
    } else {
      assert Generated(y);
    }
  }

  /** The id cell of row `i` before the repair. */
  function IdAt(patents: seq<PatentRow>, papers: seq<PaperRow>, i: nat): Cell
    requires i < |patents| + |papers|
  {
    if i < |patents| then patents[i].id else Text(PaperId(i - |patents|))
  }

  lemma IngestedId(patents: seq<PatentRow>, papers: seq<PaperRow>, i: nat)
    requires i < |patents| + |papers|
    ensures Ingested(patents, papers)[i].id == RepairedId(IdAt(patents, papers, i), i)
  {
  }

  /** The ids are pairwise distinct when the non-blank patent ids differ as
      text and none of them looks like a generated one. */
  lemma IdsUnique(patents: seq<PatentRow>, papers: seq<PaperRow>, i: nat, k: nat)
    requires i < k < |patents| + |papers|
    requires forall a, b :: 0 <= a < b < |patents| && !Blank(patents[a].id) && !Blank(patents[b].id) ==>
               Str(patents[a].id) != Str(patents[b].id)
    requires forall a :: 0 <= a < |patents| && !Blank(patents[a].id) ==> !Generated(Str(patents[a].id))
    ensures Ingested(patents, papers)[i].id != Ingested(patents, papers)[k].id
  {
    IngestedId(patents, papers, i);
    IngestedId(patents, papers, k);
    var n := |patents|;
    if k < n {
      PatentIdsDistinct(patents[i].id, i, patents[k].id, k);
    } else if i < n {
      PatentPaperIdsDistinct(patents[i].id, i, k - n);
    } else {
      PaperIdsDistinct(i - n, k - n);
    }
  }

  /** Distinct rows get distinct repaired ids. */
  lemma DocIdsDistinct(i: nat, k: nat)
    requires i != k
    ensures "doc_" + NatToString(i) != "doc_" + NatToString(k)
  {
    var a, b := "doc_" + NatToString(i), "doc_" + NatToString(k);
    if a == b {
      assert a[4..] == NatToString(i) && b[4..] == NatToString(k);
      NatToStringInjective(i, k);
    }
  }

  /** A row without a research field is filed under "Unknown". */
  lemma MissingFieldUnknown(c: Cell)
    requires c.Missing? || c.Int?
    ensures FieldOf(c) == Unknown
  {
    if c.Missing? {
      forall k | 0 <= k < |Keywords| ensures !Contains(Lower(Unknown), Keywords[k].0) {
        KeywordsLong(k);
        TooShort(Unknown, Keywords[k].0);
      }
      StandardizeNoMatch(Unknown);
    }
  }

  /** The embedded text is the title, ". " and the abstract, a missing part
      reading as empty. */
  lemma EmbeddingTextOf(patents: seq<PatentRow>, papers: seq<PaperRow>, i: nat)
    requires i < |patents| + |papers|
    ensures var r := Ingested(patents, papers)[i];
      r.embeddingText == r.title + ". " + r.abstractText
    ensures i < |patents| ==> Ingested(patents, papers)[i].title == patents[i].title.GetOr("")
    ensures i < |patents| ==> Ingested(patents, papers)[i].abstractText == patents[i].abstractText.GetOr("")
    ensures i >= |patents| ==> Ingested(patents, papers)[i].title == papers[i - |patents|].title.GetOr("")
    ensures i >= |patents| ==> Ingested(patents, papers)[i].abstractText == papers[i - |patents|].abstractText.GetOr("")
  {
  }

  /** A missing date reaches the index as the text "nan": the conversion has
      already turned every date into text, so the "1970-01-01" filler of line
      121 never applies. */
  lemma MissingDateIsNan(patents: seq<PatentRow>, papers: seq<PaperRow>, i: nat)
    requires i < |patents| && patents[i].date.Missing?
    ensures Ingested(patents, papers)[i].pubDate == "nan"
  {
    ConvertMissing();
  }
}
