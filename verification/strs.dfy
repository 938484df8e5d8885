/** The System.String operations the modelled code relies on, with ordinal
    (culture-free) comparison and ASCII case mapping. */
module Strs {
  import opened Outcomes
  import opened Seqs

  /** String.StartsWith(prefix). */
  predicate StartsWith(s: string, prefix: string) {
    |prefix| <= |s| && s[..|prefix|] == prefix
  }

  /** String.EndsWith for a one-character suffix. */
  predicate EndsWith(s: string, c: char) {
    |s| > 0 && s[|s| - 1] == c
  }

  /** Char.ToLower restricted to ASCII letters. */
  function LowerChar(c: char): char {
    if 'A' <= c <= 'Z' then (c as int - 'A' as int + 'a' as int) as char else c
  }

  predicate IsUpper(c: char) {
    'A' <= c <= 'Z'
  }

  /** String.ToLower, character by character: no upper-case letter is left,
      each upper-case letter becomes its lower-case partner in place, and
      every other character stays. */
  function Lower(s: string): (r: string)
    ensures |r| == |s|
    ensures forall i :: 0 <= i < |r| ==> !IsUpper(r[i])
    ensures forall i :: 0 <= i < |s| && IsUpper(s[i]) ==> r[i] as int == s[i] as int + 32
    ensures forall i :: 0 <= i < |s| && !IsUpper(s[i]) ==> r[i] == s[i]
  {
    seq(|s|, i requires 0 <= i < |s| => LowerChar(s[i]))
  }

  /** Lower-casing twice is lower-casing once, and a string with no
      upper-case letter is its own lower-case form. */
  lemma LowerIdempotent(s: string)
    ensures Lower(Lower(s)) == Lower(s)
    ensures (forall i :: 0 <= i < |s| ==> !IsUpper(s[i])) ==> Lower(s) == s
  {
    var l := Lower(s);
    assert forall i :: 0 <= i < |l| ==> Lower(l)[i] == l[i];
    if forall i :: 0 <= i < |s| ==> !IsUpper(s[i]) {
      assert forall i :: 0 <= i < |s| ==> l[i] == s[i];
    }
  }

  /** The text pat occurs in s at position i. */
  predicate OccursAt(s: string, pat: string, i: int) {
    0 <= i && i + |pat| <= |s| && s[i..i + |pat|] == pat
  }

  /** String.Replace(pat, rep): every occurrence of pat, found left to right
      without overlap, is replaced by rep. String.Replace throws for an empty
      pat; the model never calls it with one, because its caller raises that
      exception itself first. */
  function ReplaceAll(s: string, pat: string, rep: string): (r: string)
    requires |pat| > 0
    ensures |rep| == |pat| ==> |r| == |s|
    ensures |rep| <= |pat| ==> |r| <= |s|
    decreases |s|
  {
    if |s| < |pat| then s
    else if s[..|pat|] == pat then rep + ReplaceAll(s[|pat|..], pat, rep)
    else [s[0]] + ReplaceAll(s[1..], pat, rep)
  }

  /** Replacing a text by itself changes nothing. */
  lemma {:induction false} ReplaceAllSelf(s: string, pat: string)
    requires |pat| > 0
    ensures ReplaceAll(s, pat, pat) == s
    decreases |s|
  {
    if |s| >= |pat| {
      if s[..|pat|] == pat {
        ReplaceAllSelf(s[|pat|..], pat);
        assert s == pat + s[|pat|..];
      } else {
        ReplaceAllSelf(s[1..], pat);
        assert s == [s[0]] + s[1..];
      }
    }
  }

  /** A string in which pat never occurs is left as it is by ReplaceAll. */
  lemma {:induction false} ReplaceAllAbsent(s: string, pat: string, rep: string)
    requires |pat| > 0
    requires forall i :: !OccursAt(s, pat, i)
    ensures ReplaceAll(s, pat, rep) == s
    decreases |s|
  {
    if |s| >= |pat| {
      assert !OccursAt(s, pat, 0);
      forall i
        ensures !OccursAt(s[1..], pat, i)
      {
        assert !OccursAt(s, pat, i + 1);
        if 0 <= i && i + |pat| <= |s| - 1 {
          assert s[1..][i..i + |pat|] == s[i + 1..i + 1 + |pat|];
        }
      }
      ReplaceAllAbsent(s[1..], pat, rep);
      assert s == [s[0]] + s[1..];
    }
  }

  /** One left-to-right pass can leave an occurrence behind: removing "ab"
      from "aabb" joins the outer letters into a new "ab". */
  lemma ReplaceAllCanLeaveOccurrence()
    ensures ReplaceAll("aabb", "ab", "") == "ab"
  {
    assert "aabb"[..2] != "ab" by { assert "aabb"[1] != "ab"[1]; }
    assert "aabb"[1..] == "abb";
    assert "abb"[..2] == "ab";
    assert "abb"[2..] == "b";
    assert ReplaceAll("b", "ab", "") == "b";
  }

  /** String.Replace(a, b) for single characters. */
  function ReplaceChar(s: string, a: char, b: char): (r: string)
    ensures |r| == |s|
    ensures a != b ==> a !in r
    ensures forall i :: 0 <= i < |s| && s[i] != a ==> r[i] == s[i]
    ensures forall i :: 0 <= i < |s| && s[i] == a ==> r[i] == b
  {
    seq(|s|, i requires 0 <= i < |s| => if s[i] == a then b else s[i])
  }

  /** String.Split(c): the pieces between occurrences of c, empty ones kept. */
  function Split(s: string, c: char): (r: seq<string>)
    ensures |r| > 0
    ensures forall k :: 0 <= k < |r| ==> c !in r[k]
    decreases |s|
  {
    match FirstIndex(s, x => x == c)
    case None => [s]
    case Some(i) => [s[..i]] + Split(s[i + 1..], c)
  }

  /** A field free of the separator, followed by the separator, splits off
      as the first piece. */
  lemma SplitField(a: string, c: char, b: string)
    requires c !in a
    ensures Split(a + [c] + b, c) == [a] + Split(b, c)
  {
    var s := a + [c] + b;
    assert s[|a|] == c;
    assert forall j :: 0 <= j < |a| ==> s[j] == a[j];
    assert FirstIndex(s, x => x == c) == Some(|a|);
    assert s[..|a|] == a;
    assert s[|a| + 1..] == b;
  }

  /** String.Join(c, pieces): the pieces with c between neighbours. */
  function Join(pieces: seq<string>, c: char): (r: string)
    requires |pieces| > 0
    ensures StartsWith(r, pieces[0])
    decreases |pieces|
  {
    if |pieces| == 1 then pieces[0]
    else pieces[0] + [c] + Join(pieces[1..], c)
  }

  /** Joining the pieces of a split with the same separator gives the
      string back. */
  lemma {:induction false} SplitJoin(s: string, c: char)
    ensures Join(Split(s, c), c) == s
    decreases |s|
  {
    match FirstIndex(s, x => x == c)
    case None =>
    case Some(i) =>
      var r := Split(s, c);
      assert r == [s[..i]] + Split(s[i + 1..], c);
      SplitJoin(s[i + 1..], c);
      assert r[1..] == Split(s[i + 1..], c);
      assert s == s[..i] + [c] + s[i + 1..];
  }

  /** A string free of the separator is a single piece. */
  lemma SplitWhole(s: string, c: char)
    requires c !in s
    ensures Split(s, c) == [s]
  {
    assert FirstIndex(s, x => x == c) == None;
  }

  // ---- Int32 decimal text: int.ToString() and int.TryParse ----

  const Int32Min: int := -0x8000_0000
  const Int32Max: int := 0x7fff_ffff

  predicate IsDigit(c: char) {
    '0' <= c <= '9'
  }

  function DigitChar(d: nat): (c: char)
    requires d < 10
    ensures IsDigit(c) && c as int - '0' as int == d
  {
    ('0' as int + d) as char
  }

  /** The decimal digits of n, most significant first, without leading zeros. */
  function Digits(n: nat): (r: string)
    ensures |r| > 0
    ensures forall i :: 0 <= i < |r| ==> IsDigit(r[i])
    ensures r[0] == '0' <==> n == 0
  {
    if n < 10 then [DigitChar(n)] else Digits(n / 10) + [DigitChar(n % 10)]
  }

  /** The number a string of decimal digits denotes. */
  function DigitsValue(s: string): nat
    requires forall i :: 0 <= i < |s| ==> IsDigit(s[i])
  {
    if |s| == 0 then 0
    else
      assert IsDigit(s[|s| - 1]);
      DigitsValue(s[..|s| - 1]) * 10 + (s[|s| - 1] as int - '0' as int)
  }

  /** Int32.ToString() in the invariant culture: a minus sign exactly for
      negative values, then decimal digits with no leading zero. */
  function FormatInt(n: int): (r: string)
    ensures ':' !in r
    ensures |r| > 0 && (r[0] == '-' <==> n < 0)
    ensures forall i :: (if n < 0 then 1 else 0) <= i < |r| ==> IsDigit(r[i])
    ensures |r| > 1 && IsDigit(r[0]) ==> r[0] != '0'
    ensures n < 0 ==> |r| > 1 && r[1] != '0'
  {
    if n < 0 then "-" + Digits(-n) else Digits(n)
  }

  /** Int32.TryParse: an optional sign, then one or more decimal digits whose
      value fits in 32 bits; anything else fails. */
  function ParseInt32(s: string): (r: Option<int>)
    ensures r.Some? ==> Int32Min <= r.value <= Int32Max
    ensures |s| == 0 ==> r.None?
    ensures forall i :: 0 < i < |s| && !IsDigit(s[i]) ==> r.None?
    ensures |s| > 0 && !IsDigit(s[0]) && s[0] != '-' && s[0] != '+' ==> r.None?
  {
    var neg := |s| > 0 && s[0] == '-';
    var body := if |s| > 0 && (s[0] == '-' || s[0] == '+') then s[1..] else s;
    if |body| == 0 || exists i :: 0 <= i < |body| && !IsDigit(body[i]) then None
    else
      var v: int := if neg then -(DigitsValue(body) as int) else DigitsValue(body);
      if Int32Min <= v <= Int32Max then Some(v) else None
  }

  /** Reading back the digits of n gives n. */
  lemma {:induction false} DigitsRoundTrip(n: nat)
    ensures DigitsValue(Digits(n)) == n
  {
    if n >= 10 {
      var d := Digits(n);
      DigitsRoundTrip(n / 10);
      assert d[..|d| - 1] == Digits(n / 10);
      assert d[|d| - 1] == DigitChar(n % 10);
    }
  }

  /** Int32.TryParse undoes Int32.ToString on every 32-bit value. */
  lemma FormatParseRoundTrip(n: int)
    requires Int32Min <= n <= Int32Max
    ensures ParseInt32(FormatInt(n)) == Some(n)
  {
    var s := FormatInt(n);
    if n < 0 {
      DigitsRoundTrip(-n);
      assert s[1..] == Digits(-n);
    } else {
      DigitsRoundTrip(n);
    }
  }
}
