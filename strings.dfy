/** Text helpers shared by the search service, the ingestion normalisers and the
    OpenAlex fetcher: joining, substring search, ASCII lower-casing, digit
    strings and decimal rendering, and the code-point order Python uses to
    compare and sort strings. */
module Strings {
  import opened Wrappers

  /** `sep.join(parts)`. */
  function Join(parts: seq<string>, sep: string): string
  {
    if |parts| == 0 then ""
    else if |parts| == 1 then parts[0]
    else parts[0] + sep + Join(parts[1..], sep)
  }

  /** Joining one more part at the end. */
  lemma {:induction false} JoinSnoc(parts: seq<string>, x: string, sep: string)
    requires |parts| > 0
    ensures Join(parts + [x], sep) == Join(parts, sep) + sep + x
  {
    if |parts| == 1 {
      assert parts + [x] == [parts[0], x];
      assert ([parts[0], x])[1..] == [x];
    } else {
      assert (parts + [x])[1..] == parts[1..] + [x];
      JoinSnoc(parts[1..], x, sep);
    }
  }

  // ---------------------------------------------------------------------------
  // Substrings

  /** Python's `k in s` for strings: `k` occurs as a contiguous part of `s`. */
  predicate Contains(s: string, k: string)
  {
    exists i :: 0 <= i <= |s| - |k| && OccursAt(s, k, i)
  }

  predicate OccursAt(s: string, k: string, i: int)
  {
    0 <= i <= |s| - |k| && s[i..i + |k|] == k
  }

  /** A string can only contain another that is no longer than it and all of
      whose characters it contains. */
  lemma ContainsNeeds(s: string, k: string, c: char)
    requires Contains(s, k)
    ensures |k| <= |s|
    ensures c in k ==> c in s
  {
    var i :| 0 <= i <= |s| - |k| && OccursAt(s, k, i);
    if c in k {
      var j :| 0 <= j < |k| && k[j] == c;
      assert s[i..i + |k|][j] == s[i + j];
    }
  }

  /** `k` occurring at a known offset. */
  lemma ContainsAt(s: string, k: string, i: int)
    requires OccursAt(s, k, i)
    ensures Contains(s, k)
  {
  }

  /** `s.find(c)`: the first position holding `c`, if any. */
  function IndexOf(s: string, c: char): (r: Option<nat>)
    ensures r.Some? ==> r.value < |s| && s[r.value] == c
    ensures r.Some? ==> forall k :: 0 <= k < r.value ==> s[k] != c
    ensures r.None? ==> forall k :: 0 <= k < |s| ==> s[k] != c
  {
    if |s| == 0 then None
    else if s[0] == c then Some(0)
    else match IndexOf(s[1..], c)
      case None => None
      case Some(k) => Some(k + 1)
  }

  /** A string contains every contiguous part of what it contains. */
  lemma ContainsSlice(s: string, k: string, a: int, b: int)
    requires Contains(s, k) && 0 <= a <= b <= |k|
    ensures Contains(s, k[a..b])
  {
    var i :| 0 <= i <= |s| - |k| && OccursAt(s, k, i);
    forall j | a <= j < b ensures s[i + j] == k[j] {
      assert s[i..i + |k|][j] == s[i + j];
    }
    assert s[i + a..i + b] == k[a..b];
    assert OccursAt(s, k[a..b], i + a);
  }

  // ---------------------------------------------------------------------------
  // Lower case (ASCII letters only)

  function LowerChar(c: char): char
  {
    if 'A' <= c <= 'Z' then (c as int - 'A' as int + 'a' as int) as char else c
  }

  /** `s.lower()`, restricted to the ASCII letters. */
  function Lower(s: string): (r: string)
    ensures |r| == |s|
    ensures forall i :: 0 <= i < |s| ==> r[i] == LowerChar(s[i])
  {
    if |s| == 0 then "" else [LowerChar(s[0])] + Lower(s[1..])
  }

  /** A lower-case letter `c` occurs in `Lower(s)` only where `s` has `c` or its
      upper-case form. */
  lemma LowerHas(s: string, c: char)
    requires 'a' <= c <= 'z'
    requires c !in s && (c as int - 'a' as int + 'A' as int) as char !in s
    ensures c !in Lower(s)
  {
  }

  // ---------------------------------------------------------------------------
  // Digits and decimal numbers

  predicate IsDigit(c: char)
  {
    '0' <= c <= '9'
  }

  /** `s.isdigit()` on ASCII: non-empty and every character a digit. */
  predicate IsDigits(s: string)
  {
    |s| > 0 && forall i :: 0 <= i < |s| ==> IsDigit(s[i])
  }

  predicate AllDigits(s: string)
  {
    forall i :: 0 <= i < |s| ==> IsDigit(s[i])
  }

  function DigitChar(d: nat): (c: char)
    requires d < 10
    ensures IsDigit(c) && c as int - '0' as int == d
  {
    ('0' as int + d) as char
  }

  function DigitValue(c: char): (d: nat)
    requires IsDigit(c)
    ensures d < 10 && DigitChar(d) == c
  {
    c as int - '0' as int
  }

  /** `int(s)` on a string of ASCII digits (leading zeros allowed). */
  function ParseNat(s: string): nat
    requires AllDigits(s)
  {
    if |s| == 0 then 0 else ParseNat(s[..|s| - 1]) * 10 + DigitValue(s[|s| - 1])
  }

  function Pow10(n: nat): (p: nat)
    ensures p > 0
  {
    if n == 0 then 1 else 10 * Pow10(n - 1)
  }

  /** A digit string of length `n` reads as a number below `10^n`. */
  lemma {:induction false} ParseNatBound(s: string)
    requires AllDigits(s)
    ensures ParseNat(s) < Pow10(|s|)
  {
    if |s| > 0 {
      ParseNatBound(s[..|s| - 1]);
    }
  }

  /** `str(n)` for a natural number: its shortest decimal form. */
  function NatToString(n: nat): (r: string)
    ensures IsDigits(r)
  {
    if n < 10 then [DigitChar(n)] else NatToString(n / 10) + [DigitChar(n % 10)]
  }

  /** `str(i)` for any integer. */
  function IntToString(i: int): string
  {
    if i < 0 then "-" + NatToString(-i) else NatToString(i)
  }

  /** Reading back a rendered number gives the number. */
  lemma {:induction false} ParseNatToString(n: nat)
    ensures ParseNat(NatToString(n)) == n
  {
    var r := NatToString(n);
    if n >= 10 {
      ParseNatToString(n / 10);
      assert r[..|r| - 1] == NatToString(n / 10);
    }
  }

  /** Rendering is injective. */
  lemma NatToStringInjective(a: nat, b: nat)
    requires NatToString(a) == NatToString(b)
    ensures a == b
  {
    ParseNatToString(a);
    ParseNatToString(b);
  }

  /** A digit string without a redundant leading zero is the rendering of its
      value. */
  lemma {:induction false} NatToStringParse(s: string)
    requires IsDigits(s) && (s[0] == '0' ==> |s| == 1)
    ensures NatToString(ParseNat(s)) == s
  {
    if |s| > 1 {
      var p := s[..|s| - 1];
      assert p[0] == s[0];
      NatToStringParse(p);
      ParseNatPositive(p);
      assert ParseNat(s) / 10 == ParseNat(p);
      assert ParseNat(s) % 10 == DigitValue(s[|s| - 1]);
      assert s == p + [s[|s| - 1]];
    }
  }

  lemma {:induction false} ParseNatPositive(s: string)
    requires IsDigits(s) && s[0] != '0'
    ensures ParseNat(s) > 0
  {
    if |s| > 1 {
      var p := s[..|s| - 1];
      assert p[0] == s[0];
      ParseNatPositive(p);
    }
  }

  /** Zero-padded two-digit rendering (`%02d`). */
  function Pad2(n: nat): (r: string)
    requires n < 100
    ensures |r| == 2 && IsDigits(r)
  {
    [DigitChar(n / 10), DigitChar(n % 10)]
  }

  /** Zero-padded four-digit rendering (`%04d`). */
  function Pad4(n: nat): (r: string)
    requires n < 10000
    ensures |r| == 4 && IsDigits(r)
  {
    var q1 := n / 10;
    var q2 := q1 / 10;
    [DigitChar(q2 / 10), DigitChar(q2 % 10), DigitChar(q1 % 10), DigitChar(n % 10)]
  }

  lemma ParsePad2(n: nat)
    requires n < 100
    ensures ParseNat(Pad2(n)) == n
  {
    var r := Pad2(n);
    assert r[..1] == [r[0]];
    assert ParseNat(r[..1]) == DigitValue(r[0]) by {
      assert r[..1][..0] == [];
    }
  }

  /** Reading one more digit. */
  lemma ParseNatSnoc(s: string, c: char)
    requires AllDigits(s) && IsDigit(c)
    ensures AllDigits(s + [c]) && ParseNat(s + [c]) == ParseNat(s) * 10 + DigitValue(c)
  {
    assert (s + [c])[..|s|] == s;
  }

  lemma ParsePad4(n: nat)
    requires n < 10000
    ensures ParseNat(Pad4(n)) == n
  {
    var q1 := n / 10;
    var q2 := q1 / 10;
    var a, b, c, d := DigitChar(q2 / 10), DigitChar(q2 % 10), DigitChar(q1 % 10), DigitChar(n % 10);
    ParseNatSnoc([], a);
    assert [] + [a] == [a];
    ParseNatSnoc([a], b);
    assert [a] + [b] == [a, b];
    ParseNatSnoc([a, b], c);
    assert [a, b] + [c] == [a, b, c];
    ParseNatSnoc([a, b, c], d);
    assert [a, b, c] + [d] == Pad4(n);
  }

  // ---------------------------------------------------------------------------
  // Python's string order: lexicographic on code points

  predicate Less(a: string, b: string)
  {
    if |a| == 0 then |b| > 0
    else |b| > 0 && (a[0] < b[0] || (a[0] == b[0] && Less(a[1..], b[1..])))
  }

  lemma {:induction false} LessIrreflexive(a: string)
    ensures !Less(a, a)
  {
    if |a| > 0 {
      LessIrreflexive(a[1..]);
    }
  }

  lemma {:induction false} LessTransitive(a: string, b: string, c: string)
    requires Less(a, b) && Less(b, c)
    ensures Less(a, c)
  {
    if |a| > 0 && a[0] == b[0] && b[0] == c[0] {
      LessTransitive(a[1..], b[1..], c[1..]);
    }
  }

  lemma {:induction false} LessTotal(a: string, b: string)
    ensures a == b || Less(a, b) || Less(b, a)
  {
    if |a| > 0 && |b| > 0 && a[0] == b[0] {
      LessTotal(a[1..], b[1..]);
      if a[1..] == b[1..] {
        assert a == [a[0]] + a[1..] && b == [b[0]] + b[1..];
      }
    }
  }

  lemma LessAsymmetric(a: string, b: string)
    requires Less(a, b)
    ensures !Less(b, a)
  {
    if Less(b, a) {
      LessTransitive(a, b, a);
      LessIrreflexive(a);
    }
  }

  /** Strictly ascending in Python's order (hence free of duplicates). */
  predicate StrictlySorted(s: seq<string>)
  {
    forall i, j :: 0 <= i < j < |s| ==> Less(s[i], s[j])
  }

  /** Inserting `x` into its place in a strictly ascending sequence. */
  function InsertString(s: seq<string>, x: string): (r: seq<string>)
    requires StrictlySorted(s) && x !in s
    ensures StrictlySorted(r)
    ensures |r| == |s| + 1
    ensures forall y :: y in r <==> y == x || y in s
  {
    if |s| == 0 then [x]
    else if Less(x, s[0]) then
      assert forall j :: 0 <= j < |s| ==> Less(x, s[j]) by {
        forall j | 0 <= j < |s| ensures Less(x, s[j]) {
          if j > 0 { LessTransitive(x, s[0], s[j]); }
        }
      }
      [x] + s
    else
      LessTotal(x, s[0]);
      var rest := InsertString(s[1..], x);
      assert forall y :: y in s[1..] ==> Less(s[0], y);
      [s[0]] + rest
  }

  /** `sorted(keys)` for a set of strings: its elements, strictly ascending. */
  method SortStrings(keys: set<string>) returns (r: seq<string>)
    ensures StrictlySorted(r)
    ensures |r| == |keys|
    ensures forall y :: y in r <==> y in keys
  {
    r := [];
    var rest := keys;
    while rest != {}
      invariant rest <= keys
      invariant StrictlySorted(r)
      invariant |r| + |rest| == |keys|
      invariant forall y :: y in r <==> y in keys && y !in rest
      decreases |rest|
    {
      var x :| x in rest;
      r := InsertString(r, x);
      rest := rest - {x};
    }
  }
}
