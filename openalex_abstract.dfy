/** Rebuilding an abstract from OpenAlex's inverted index
    (backend/app/fetch_openalex.py, lines 24-35): the index lists, for each
    word, the positions where it occurs; the text is the words of all
    (position, word) pairs, sorted, joined by single spaces. The index is the
    JSON object's items in their order. */
module OpenAlexAbstract {
  import opened Wrappers
  import opened Strings

  /** word -> positions, as the items of the JSON object. */
  type Index = seq<(string, seq<int>)>

  /** The pairs one item contributes, in the order of its positions. */
  function ItemPairs(item: (string, seq<int>)): (r: seq<(int, string)>)
    ensures |r| == |item.1|
    ensures forall j :: 0 <= j < |r| ==> r[j] == (item.1[j], item.0)
  {
    seq(|item.1|, j requires 0 <= j < |item.1| => (item.1[j], item.0))
  }

  /** All the pairs of the index, item by item. */
  function Pairs(index: Index): seq<(int, string)>
  {
    if |index| == 0 then [] else Pairs(index[..|index| - 1]) + ItemPairs(index[|index| - 1])
  }

  /** The number of positions listed in the index. */
  function TotalPositions(index: Index): nat
  {
    if |index| == 0 then 0 else TotalPositions(index[..|index| - 1]) + |index[|index| - 1].1|
  }

  /** The number of positions listed for `w`. */
  function PositionsOf(index: Index, w: string): nat
  {
    if |index| == 0 then 0
    else PositionsOf(index[..|index| - 1], w) + (if index[|index| - 1].0 == w then |index[|index| - 1].1| else 0)
  }

  /** Lines 28-31: the nested loops that collect the pairs. */
  method WordPositions(index: Index) returns (pairs: seq<(int, string)>)
    ensures pairs == Pairs(index)
  {
    pairs := [];
    var i := 0;
    while i < |index|
      invariant 0 <= i <= |index|
      invariant pairs == Pairs(index[..i])
    {
      var (word, positions) := index[i];
      var j := 0;
      while j < |positions|
        invariant 0 <= j <= |positions|
        invariant pairs == Pairs(index[..i]) + ItemPairs((word, positions[..j]))
      {
        pairs := pairs + [(positions[j], word)];
        j := j + 1;
      }
      assert positions[..j] == positions;
      assert index[..i + 1][..i] == index[..i];
      i := i + 1;
    }
    assert index[..i] == index;
  }

  // ---------------------------------------------------------------------------
  // Python's order on (position, word) tuples

  predicate PairLeq(a: (int, string), b: (int, string))
  {
    a.0 < b.0 || (a.0 == b.0 && (a.1 == b.1 || Less(a.1, b.1)))
  }

  lemma PairLeqTotal(a: (int, string), b: (int, string))
    ensures PairLeq(a, b) || PairLeq(b, a)
  {
    LessTotal(a.1, b.1);
  }

  lemma PairLeqTransitive(a: (int, string), b: (int, string), c: (int, string))
    requires PairLeq(a, b) && PairLeq(b, c)
    ensures PairLeq(a, c)
  {
    if a.0 == b.0 == c.0 && a.1 != b.1 && b.1 != c.1 {
      LessTransitive(a.1, b.1, c.1);
    }
  }

  lemma PairLeqAntisymmetric(a: (int, string), b: (int, string))
    requires PairLeq(a, b) && PairLeq(b, a)
    ensures a == b
  {
    if a.1 != b.1 {
      LessAsymmetric(a.1, b.1);
    }
  }

  predicate SortedPairs(s: seq<(int, string)>)
  {
    forall i, j :: 0 <= i < j < |s| ==> PairLeq(s[i], s[j])
  }

  /** An element at most the head of a sorted sequence is at most all of it. */
  lemma BelowAll(x: (int, string), s: seq<(int, string)>)
    requires SortedPairs(s) && |s| > 0 && PairLeq(x, s[0])
    ensures forall j :: 0 <= j < |s| ==> PairLeq(x, s[j])
  {
    forall j | 0 < j < |s| ensures PairLeq(x, s[j]) {
      PairLeqTransitive(x, s[0], s[j]);
    }
  }

  /** The head of a sorted sequence is at most every element of `rest` when
      those are the tail's elements and one element above the head. */
  lemma HeadBelowAll(s: seq<(int, string)>, x: (int, string), rest: seq<(int, string)>)
    requires SortedPairs(s) && |s| > 0 && PairLeq(s[0], x)
    requires multiset(rest) == multiset(s[1..]) + multiset{x}
    ensures forall j :: 0 <= j < |rest| ==> PairLeq(s[0], rest[j])
  {
    forall j | 0 <= j < |rest| ensures PairLeq(s[0], rest[j]) {
      var y := rest[j];
      assert y in multiset(rest);
      if y != x {
        assert y in multiset(s[1..]);
        var k :| 0 <= k < |s[1..]| && s[1..][k] == y;
        assert s[k + 1] == y;
      }
    }
  }

  /** Inserting `x` before the first element above it. */
  function InsertPair(s: seq<(int, string)>, x: (int, string)): (r: seq<(int, string)>)
    requires SortedPairs(s)
    ensures SortedPairs(r)
    ensures multiset(r) == multiset(s) + multiset{x}
  {
    if |s| == 0 then [x]
    else if PairLeq(x, s[0]) then
      BelowAll(x, s);
      [x] + s
    else
      PairLeqTotal(x, s[0]);
      var rest := InsertPair(s[1..], x);
      HeadBelowAll(s, x, rest);
      assert s == [s[0]] + s[1..];
      [s[0]] + rest
  }

  /** `sorted(pairs)`, as insertion sort. */
  function Sort(pairs: seq<(int, string)>): (r: seq<(int, string)>)
    ensures SortedPairs(r)
    ensures multiset(r) == multiset(pairs)
  {
    if |pairs| == 0 then []
    else
      var n := |pairs| - 1;
      assert pairs == pairs[..n] + [pairs[n]];
      InsertPair(Sort(pairs[..n]), pairs[n])
  }

  /** Line 33: sorting the collected pairs. */
  method SortPairs(pairs: seq<(int, string)>) returns (sorted: seq<(int, string)>)
    ensures sorted == Sort(pairs)
    ensures SortedPairs(sorted) && multiset(sorted) == multiset(pairs)
  {
    sorted := [];
    var i := 0;
    while i < |pairs|
      invariant 0 <= i <= |pairs|
      invariant sorted == Sort(pairs[..i])
    {
      sorted := InsertPair(sorted, pairs[i]);
      i := i + 1;
      assert pairs[..i][..i - 1] == pairs[..i - 1];
    }
    assert pairs[..i] == pairs;
  }

  /** The words of the pairs, in order. */
  function Words(s: seq<(int, string)>): (r: seq<string>)
    ensures |r| == |s|
    ensures forall i :: 0 <= i < |s| ==> r[i] == s[i].1
  {
    seq(|s|, i requires 0 <= i < |s| => s[i].1)
  }

  /** Lines 24-35: the abstract text of a work; a missing, null or empty index
      gives the empty text. */
  function AbstractText(index: Option<Index>): string
  {
    match index
    case None => ""
    case Some(items) => if |items| == 0 then "" else Join(Words(Sort(Pairs(items))), " ")
  }

  /** Lines 24-35 as the script runs them. */
  method Reconstruct(index: Option<Index>) returns (text: string)
    ensures text == AbstractText(index)
  {
    if index.Some? && |index.value| > 0 {
      var pairs := WordPositions(index.value);
      var sorted := SortPairs(pairs);
      var words := seq(|sorted|, i requires 0 <= i < |sorted| => sorted[i].1);
      text := Join(words, " ");
    } else {
      text := "";
    }
  }

  // ---------------------------------------------------------------------------
  // Properties of the rebuilt text

  /** No index, or an empty one, gives the empty abstract. */
  lemma NoIndexNoAbstract(index: Option<Index>)
    requires index.None? || index == Some([])
    ensures AbstractText(index) == ""
  {
  }

  lemma {:induction false} PairsCount(index: Index)
    ensures |Pairs(index)| == TotalPositions(index)
  {
    if |index| > 0 {
      PairsCount(index[..|index| - 1]);
    }
  }

  /** The order in which the text lists the pairs: ascending by position,
      ties broken by the word, one entry per listed position. */
  lemma SortedWords(items: Index)
    ensures SortedPairs(Sort(Pairs(items)))
    ensures |Sort(Pairs(items))| == TotalPositions(items)
    ensures |items| > 0 ==> AbstractText(Some(items)) == Join(Words(Sort(Pairs(items))), " ")
  {
    PairsCount(items);
    assert |multiset(Sort(Pairs(items)))| == |multiset(Pairs(items))|;
  }

  lemma WordsAppend(a: seq<(int, string)>, b: seq<(int, string)>)
    ensures Words(a + b) == Words(a) + Words(b)
  {
  }

  /** Words of a sequence with one more pair inserted. */
  lemma {:induction false} InsertWords(s: seq<(int, string)>, x: (int, string))
    requires SortedPairs(s)
    ensures multiset(Words(InsertPair(s, x))) == multiset(Words(s)) + multiset{x.1}
  {
    if |s| == 0 {
      assert Words([x]) == [x.1];
    } else if PairLeq(x, s[0]) {
      WordsAppend([x], s);
      assert Words([x]) == [x.1];
    } else {
      var rest := InsertPair(s[1..], x);
      InsertWords(s[1..], x);
      assert InsertPair(s, x) == [s[0]] + rest;
      WordsAppend([s[0]], rest);
      assert s == [s[0]] + s[1..];
      WordsAppend([s[0]], s[1..]);
      assert Words([s[0]]) == [s[0].1];
    }
  }

  lemma SortSnoc(pairs: seq<(int, string)>)
    requires |pairs| > 0
    ensures Sort(pairs) == InsertPair(Sort(pairs[..|pairs| - 1]), pairs[|pairs| - 1])
  {
  }

  lemma WordsSnoc(pairs: seq<(int, string)>)
    requires |pairs| > 0
    ensures Words(pairs) == Words(pairs[..|pairs| - 1]) + [pairs[|pairs| - 1].1]
  {
  }

  /** Sorting keeps the words, with their multiplicities. */
  lemma {:induction false} SortWords(pairs: seq<(int, string)>)
    ensures multiset(Words(Sort(pairs))) == multiset(Words(pairs))
  {
    if |pairs| > 0 {
      var n := |pairs| - 1;
      var sorted := Sort(pairs[..n]);
      SortWords(pairs[..n]);
      InsertWords(sorted, pairs[n]);
      SortSnoc(pairs);
      WordsSnoc(pairs);
    }
  }

  lemma {:induction false} PairsWords(index: Index, w: string)
    ensures multiset(Words(Pairs(index)))[w] == PositionsOf(index, w)
  {
    if |index| > 0 {
      var n := |index| - 1;
      PairsWords(index[..n], w);
      WordsAppend(Pairs(index[..n]), ItemPairs(index[n]));
      var ws := Words(ItemPairs(index[n]));
      assert ws == seq(|index[n].1|, _ => index[n].0);
      if index[n].0 == w {
        assert multiset(ws)[w] == |ws| by {
          assert forall v :: v in multiset(ws) ==> v == w;
          MultisetOfConstant(ws, w);
        }
      } else {
        assert w !in ws;
      }
    }
  }

  lemma {:induction false} MultisetOfConstant(ws: seq<string>, w: string)
    requires forall i :: 0 <= i < |ws| ==> ws[i] == w
    ensures multiset(ws)[w] == |ws|
  {
    if |ws| > 0 {
      MultisetOfConstant(ws[1..], w);
      assert ws == [ws[0]] + ws[1..];
    }
  }

  /** Every word appears in the sorted word list as many times as the index
      lists positions for it. */
  lemma WordMultiplicity(items: Index, w: string)
    ensures multiset(Words(Sort(Pairs(items))))[w] == PositionsOf(items, w)
  {
    SortWords(Pairs(items));
    PairsWords(items, w);
  }

  // ---------------------------------------------------------------------------
  // Round trip: index a word sequence, then rebuild it

  /** The position of the item for `w`, if any. */
  function KeyIndex(index: Index, w: string): (r: Option<nat>)
    ensures r.Some? ==> r.value < |index| && index[r.value].0 == w
    ensures r.None? ==> forall k :: 0 <= k < |index| ==> index[k].0 != w
  {
    if |index| == 0 then None
    else if index[0].0 == w then Some(0)
    else match KeyIndex(index[1..], w)
      case None => None
      case Some(k) => Some(k + 1)
  }

  /** Record that `w` occurs at position `p`. */
  function AddPosition(index: Index, w: string, p: int): Index
  {
    match KeyIndex(index, w)
    case Some(k) => index[k := (w, index[k].1 + [p])]
    case None => index + [(w, [p])]
  }

  /** The inverted index OpenAlex publishes for a word sequence: one item per
      distinct word, in order of first occurrence, listing its positions. */
  function InvertedIndex(words: seq<string>): Index
  {
    if |words| == 0 then []
    else
      var n := |words| - 1;
      AddPosition(InvertedIndex(words[..n]), words[n], n)
  }

  /** The words numbered by position. */
  function Enumerate(words: seq<string>): (r: seq<(int, string)>)
    ensures |r| == |words|
    ensures forall i :: 0 <= i < |r| ==> r[i] == (i, words[i])
  {
    seq(|words|, i requires 0 <= i < |words| => (i, words[i]))
  }

  lemma EnumerateSnoc(words: seq<string>)
    requires |words| > 0
    ensures Enumerate(words) == Enumerate(words[..|words| - 1]) + [(|words| - 1, words[|words| - 1])]
  {
  }

  predicate DistinctKeys(index: Index)
  {
    forall a, b :: 0 <= a < b < |index| ==> index[a].0 != index[b].0
  }

  /** Extending one item by a position adds exactly that pair. */
  lemma {:induction false} PairsExtend(index: Index, k: nat, p: int)
    requires k < |index|
    ensures multiset(Pairs(index[k := (index[k].0, index[k].1 + [p])]))
         == multiset(Pairs(index)) + multiset{(p, index[k].0)}
  {
    var n := |index| - 1;
    var item := (index[k].0, index[k].1 + [p]);
    var updated := index[k := item];
    assert Pairs(updated) == Pairs(updated[..n]) + ItemPairs(updated[n]);
    assert Pairs(index) == Pairs(index[..n]) + ItemPairs(index[n]);
    if k < n {
      assert updated[..n] == index[..n][k := item];
      assert updated[n] == index[n];
      PairsExtend(index[..n], k, p);
    } else {
      assert updated[..n] == index[..n];
      assert ItemPairs(item) == ItemPairs(index[n]) + [(p, index[k].0)];
    }
  }

  lemma {:induction false} PairsAdd(index: Index, w: string, p: int)
    ensures multiset(Pairs(AddPosition(index, w, p))) == multiset(Pairs(index)) + multiset{(p, w)}
  {
    match KeyIndex(index, w)
    case Some(k) =>
      PairsExtend(index, k, p);
    case None =>
      var added := index + [(w, [p])];
      assert added[..|added| - 1] == index;
  }

  lemma {:induction false} IndexPairs(words: seq<string>)
    ensures multiset(Pairs(InvertedIndex(words))) == multiset(Enumerate(words))
  {
    if |words| > 0 {
      var n := |words| - 1;
      var prefix := InvertedIndex(words[..n]);
      IndexPairs(words[..n]);
      PairsAdd(prefix, words[n], n);
      assert InvertedIndex(words) == AddPosition(prefix, words[n], n);
      EnumerateSnoc(words);
    }
  }

  lemma {:induction false} IndexKeysDistinct(words: seq<string>)
    ensures DistinctKeys(InvertedIndex(words))
  {
    if |words| > 0 {
      var n := |words| - 1;
      IndexKeysDistinct(words[..n]);
    }
  }

  lemma EnumerateSorted(words: seq<string>)
    ensures SortedPairs(Enumerate(words))
  {
  }

  /** The head of a sorted sequence is at most each of its elements. */
  lemma HeadIsLeast(s: seq<(int, string)>, y: (int, string))
    requires SortedPairs(s) && y in multiset(s)
    ensures PairLeq(s[0], y)
  {
    var i :| 0 <= i < |s| && s[i] == y;
    if i > 0 {
      assert PairLeq(s[0], s[i]);
    }
  }

  lemma MultisetTail(s: seq<(int, string)>)
    requires |s| > 0
    ensures multiset(s[1..]) == multiset(s) - multiset{s[0]}
  {
    assert s == [s[0]] + s[1..];
  }

  /** A sorted sequence is determined by its elements. */
  lemma {:induction false} SortedUnique(s: seq<(int, string)>, t: seq<(int, string)>)
    requires SortedPairs(s) && SortedPairs(t) && multiset(s) == multiset(t)
    ensures s == t
  {
    if |s| == 0 {
      assert |multiset(t)| == 0;
    } else {
      assert s[0] in multiset(s);
      assert |t| > 0;
      assert t[0] in multiset(t);
      HeadIsLeast(s, t[0]);
      HeadIsLeast(t, s[0]);
      PairLeqAntisymmetric(s[0], t[0]);
      MultisetTail(s);
      MultisetTail(t);
      SortedUnique(s[1..], t[1..]);
      assert s == [s[0]] + s[1..] && t == [t[0]] + t[1..];
    }
  }

  /** Rebuilding the inverted index of a word sequence gives the words joined
      by single spaces, and the index has one item per distinct word. */
  lemma RoundTrip(words: seq<string>)
    ensures AbstractText(Some(InvertedIndex(words))) == Join(words, " ")
    ensures DistinctKeys(InvertedIndex(words))
  {
    IndexKeysDistinct(words);
    var index := InvertedIndex(words);
    IndexPairs(words);
    EnumerateSorted(words);
    SortedUnique(Sort(Pairs(index)), Enumerate(words));
    assert Words(Enumerate(words)) == words;
    if |index| == 0 {
      assert Pairs(index) == [];
      assert |words| == 0;
    }
  }
}
