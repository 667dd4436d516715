/** Coarse research-field categories (backend/app/data_ingestion.py, lines
    7-31): an ordered keyword table, searched case-insensitively for the first
    keyword that occurs in the label. */
module FieldStandardization {
  import opened Wrappers
  import opened Strings

  /** A spreadsheet cell: text, an integer, or missing (NaN). */
  datatype Cell = Text(s: string) | Int(i: int) | Missing

  /** Python's `str()` of a cell value. */
  function Str(c: Cell): (r: string)
    ensures c.Text? ==> r == c.s
  {
    match c
    case Text(s) => s
    case Int(i) => IntToString(i)
    case Missing => "nan"
  }

  /** `FIELD_STANDARDIZATION`, in its insertion order. */
  const Keywords: seq<(string, string)> := [
    ("machine learning", "Computer Science"),
    ("neural network", "Computer Science"),
    ("artificial intelligence", "Computer Science"),
    ("data classification", "Computer Science"),
    ("deep learning", "Computer Science"),
    ("advanced neural network", "Computer Science"),
    ("natural language processing", "Computer Science"),
    ("computational physics", "Physics"),
    ("bioinformatics", "Biology"),
    ("genetics", "Biology"),
    ("scheduling", "Operations Research"),
    ("optimization", "Operations Research")
  ]

  const Unknown := "Unknown"

  /** Lines 28-30: the category of the first entry of `table` whose keyword
      occurs in `text`. */
  function Lookup(text: string, table: seq<(string, string)>): Option<string>
  {
    if |table| == 0 then None
    else if Contains(text, table[0].0) then Some(table[0].1)
    else Lookup(text, table[1..])
  }

  /** `standardize_field`: a non-text value (NaN, a number) is "Unknown"; a
      text is mapped to the category of the first keyword it contains, in any
      case, and is kept when it contains none. */
  function StandardizeField(field: Cell): (r: string)
    ensures !field.Text? ==> r == Unknown
  {
    match field
    case Text(s) =>
      (match Lookup(Lower(s), Keywords)
       case Some(category) => category
       case None => s)
    case _ => Unknown
  }

  /** The entry at `k` decides when it is the first whose keyword occurs. */
  lemma {:induction false} LookupFirst(text: string, table: seq<(string, string)>, k: nat)
    requires k < |table| && Contains(text, table[k].0)
    requires forall j :: 0 <= j < k ==> !Contains(text, table[j].0)
    ensures Lookup(text, table) == Some(table[k].1)
  {
    if k > 0 {
      assert !Contains(text, table[0].0);
      LookupFirst(text, table[1..], k - 1);
    }
  }

  /** Nothing is found when no keyword occurs. */
  lemma {:induction false} LookupNone(text: string, table: seq<(string, string)>)
    requires forall k :: 0 <= k < |table| ==> !Contains(text, table[k].0)
    ensures Lookup(text, table) == None
  {
    if |table| > 0 {
      LookupNone(text, table[1..]);
    }
  }

  /** What is found is the category of the first entry whose keyword occurs,
      and something is found exactly when some keyword occurs. */
  lemma {:induction false} LookupFound(text: string, table: seq<(string, string)>)
    ensures Lookup(text, table).Some? ==>
      exists k :: 0 <= k < |table| && Contains(text, table[k].0) && Lookup(text, table) == Some(table[k].1)
        && forall j :: 0 <= j < k ==> !Contains(text, table[j].0)
    ensures Lookup(text, table).None? ==> forall k :: 0 <= k < |table| ==> !Contains(text, table[k].0)
  {
    if |table| > 0 && !Contains(text, table[0].0) {
      var rest := table[1..];
      LookupFound(text, rest);
      if Lookup(text, rest).Some? {
        var k :| 0 <= k < |rest| && Contains(text, rest[k].0) && Lookup(text, rest) == Some(rest[k].1)
                 && forall j :: 0 <= j < k ==> !Contains(text, rest[j].0);
        assert table[k + 1] == rest[k];
        assert forall j :: 1 <= j < k + 1 ==> table[j] == rest[j - 1];
      } else {
        assert forall k :: 1 <= k < |table| ==> table[k] == rest[k - 1];
      }
    }
  }

  /** Searching two tables one after the other. */
  lemma {:induction false} LookupAppend(text: string, a: seq<(string, string)>, b: seq<(string, string)>)
    ensures Lookup(text, a + b) == if Lookup(text, a).Some? then Lookup(text, a) else Lookup(text, b)
  {
    if |a| > 0 {
      assert (a + b)[1..] == a[1..] + b;
      LookupAppend(text, a[1..], b);
    } else {
      assert a + b == b;
    }
  }

  /** The first keyword that occurs decides the category. */
  lemma StandardizeFirstMatch(s: string, k: nat)
    requires k < |Keywords| && Contains(Lower(s), Keywords[k].0)
    requires forall j :: 0 <= j < k ==> !Contains(Lower(s), Keywords[j].0)
    ensures StandardizeField(Text(s)) == Keywords[k].1
  {
    LookupFirst(Lower(s), Keywords, k);
  }

  /** A text that contains no keyword is kept unchanged. */
  lemma StandardizeNoMatch(s: string)
    requires forall k :: 0 <= k < |Keywords| ==> !Contains(Lower(s), Keywords[k].0)
    ensures StandardizeField(Text(s)) == s
  {
    LookupNone(Lower(s), Keywords);
  }

  /** A text is kept exactly when it contains no keyword, or when the category
      decided is the text itself. */
  lemma StandardizeKept(s: string)
    ensures StandardizeField(Text(s)) == s <==>
      (forall k :: 0 <= k < |Keywords| ==> !Contains(Lower(s), Keywords[k].0))
      || Lookup(Lower(s), Keywords) == Some(s)
  {
    LookupFound(Lower(s), Keywords);
    if Lookup(Lower(s), Keywords).Some? {
      var k :| 0 <= k < |Keywords| && Contains(Lower(s), Keywords[k].0) && Lookup(Lower(s), Keywords) == Some(Keywords[k].1);
    }
  }

  // ---------------------------------------------------------------------------
  // The categories are fixed points

  /** A keyword cannot occur in a text that lacks one of its letters in both
      cases. */
  lemma Absent(text: string, key: string, c: char)
    requires 'a' <= c <= 'z' && c in key
    requires c !in text && (c as int - 'a' as int + 'A' as int) as char !in text
    ensures !Contains(Lower(text), key)
  {
    LowerHas(text, c);
    if Contains(Lower(text), key) {
      ContainsNeeds(Lower(text), key, c);
    }
  }

  /** A keyword cannot occur in a shorter text. */
  lemma TooShort(text: string, key: string)
    requires |text| < |key|
    ensures !Contains(Lower(text), key)
  {
    if Contains(Lower(text), key) {
      ContainsNeeds(Lower(text), key, 'a');
    }
  }

  /** For each keyword, a letter of it that neither category name with two
      words contains, and where it sits in the keyword. */
  const Witnesses := "llllllllbglz"
  const WitnessAt: seq<nat> := [8, 5, 9, 6, 5, 14, 6, 12, 0, 0, 6, 6]

  /** `text` has none of the witness letters, in either case. */
  predicate LacksWitnesses(text: string)
  {
    forall i :: 0 <= i < |text| ==> text[i] !in "lbgzLBGZ"
  }

  lemma WitnessInKeyword(k: nat)
    requires k < |Keywords|
    ensures |Witnesses| == |Keywords| && Witnesses[k] in "lbgz" && Witnesses[k] in Keywords[k].0
  {
    assert WitnessAt[k] < |Keywords[k].0| && Keywords[k].0[WitnessAt[k]] == Witnesses[k];
  }

  /** No keyword occurs in a text that lacks every witness letter. */
  lemma HasNoKeyword(text: string, k: nat)
    requires k < |Keywords| && LacksWitnesses(text)
    ensures !Contains(Lower(text), Keywords[k].0)
  {
    WitnessInKeyword(k);
    var low, c := Lower(text), Witnesses[k];
    forall i | 0 <= i < |low| ensures low[i] != c {
      assert text[i] !in "lbgzLBGZ";
    }
    if Contains(low, Keywords[k].0) {
      ContainsNeeds(low, Keywords[k].0, c);
    }
  }

  /** No keyword occurs in "Computer Science". */
  lemma ComputerScienceHasNoKeyword(t: string, k: nat)
    requires t == "Computer Science" && k < |Keywords|
    ensures !Contains(Lower(t), Keywords[k].0)
  {
    HasNoKeyword(t, k);
  }

  /** No keyword occurs in "Operations Research". */
  lemma OperationsResearchHasNoKeyword(t: string, k: nat)
    requires t == "Operations Research" && k < |Keywords|
    ensures !Contains(Lower(t), Keywords[k].0)
  {
    HasNoKeyword(t, k);
  }

  /** Every keyword is at least eight characters long. */
  lemma KeywordsLong(k: nat)
    requires k < |Keywords|
    ensures |Keywords[k].0| >= 8
  {
  }

  /** No category, nor "Unknown", contains a keyword. */
  lemma CategoriesHaveNoKeyword(j: nat, k: nat)
    requires j < |Keywords| && k < |Keywords|
    ensures !Contains(Lower(Keywords[j].1), Keywords[k].0)
    ensures !Contains(Lower(Unknown), Keywords[k].0)
  {
    KeywordsLong(k);
    TooShort(Unknown, Keywords[k].0);
    var category := Keywords[j].1;
    if category == "Computer Science" {
      ComputerScienceHasNoKeyword(category, k);
    } else if category == "Operations Research" {
      OperationsResearchHasNoKeyword(category, k);
    } else {
      assert category == "Physics" || category == "Biology";
      TooShort(category, Keywords[k].0);
    }
  }

  /** Standardizing twice gives what standardizing once gives. */
  lemma StandardizeIdempotent(field: Cell)
    ensures StandardizeField(Text(StandardizeField(field))) == StandardizeField(field)
  {
    var r := StandardizeField(field);
    if field.Text? && Lookup(Lower(field.s), Keywords).Some? {
      LookupFound(Lower(field.s), Keywords);
      var j :| 0 <= j < |Keywords| && Lookup(Lower(field.s), Keywords) == Some(Keywords[j].1);
      forall k | 0 <= k < |Keywords| ensures !Contains(Lower(r), Keywords[k].0) {
        CategoriesHaveNoKeyword(j, k);
      }
      StandardizeNoMatch(r);
    } else if field.Text? {
      LookupFound(Lower(field.s), Keywords);
      StandardizeNoMatch(r);
    } else {
      forall k | 0 <= k < |Keywords| ensures !Contains(Lower(r), Keywords[k].0) {
        CategoriesHaveNoKeyword(0, k);
      }
      StandardizeNoMatch(r);
    }
  }

  /** The "advanced neural network" entry never decides a category: any text
      containing it also contains the earlier "neural network", so the table
      without that entry gives the same result on every text. */
  lemma AdvancedNeuralNetworkShadowed(text: string)
    ensures Lookup(text, Keywords) == Lookup(text, Keywords[..5] + Keywords[6..])
  {
    var before, after := Keywords[..5], Keywords[6..];
    assert Keywords == before + ([Keywords[5]] + after);
    LookupAppend(text, before, [Keywords[5]] + after);
    LookupAppend(text, before, after);
    if Lookup(text, before).None? {
      LookupFound(text, before);
      assert !Contains(text, before[1].0);
      assert Keywords[5].0[9..23] == before[1].0;
      if Contains(text, Keywords[5].0) {
        ContainsSlice(text, Keywords[5].0, 9, 23);
      }
      assert ([Keywords[5]] + after)[1..] == after;
    }
  }
}
