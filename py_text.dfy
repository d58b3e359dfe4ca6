/** The operations on Python `str` values that the service's logic relies on:
    `isspace`, `strip`, `lower`, `in`, `startswith`, `endswith`, `replace`,
    `split(",")[0]`, `join`, slicing and `str(int)`.  A Dafny `string` holds one
    `char` per Unicode code point, as a Python `str` does. */
module PyText {

  /** `c.isspace()`: the ASCII and Unicode white-space characters. */
  predicate IsSpace(c: char) {
    || ('\t' <= c <= '\r')
    || ('\U{1c}' <= c <= '\U{1f}')
    || c == ' '
    || c == '\U{85}' || c == '\U{a0}' || c == '\U{1680}'
    || ('\U{2000}' <= c <= '\U{200a}')
    || c == '\U{2028}' || c == '\U{2029}' || c == '\U{202f}' || c == '\U{205f}' || c == '\U{3000}'
  }

  predicate AllSpace(s: string) {
    forall i :: 0 <= i < |s| ==> IsSpace(s[i])
  }

  /** Neither end of `s` is white space. */
  predicate Trimmed(s: string) {
    s == [] || (!IsSpace(s[0]) && !IsSpace(s[|s| - 1]))
  }

  /** Length of the white-space run at the start of `s`. */
  function LeadingSpace(s: string): (n: nat)
    ensures n <= |s|
    ensures AllSpace(s[..n])
    ensures n < |s| ==> !IsSpace(s[n])
  {
    if s != [] && IsSpace(s[0]) then 1 + LeadingSpace(s[1..]) else 0
  }

  /** Length of the white-space run at the end of `s`. */
  function TrailingSpace(s: string): (n: nat)
    ensures n <= |s|
    ensures AllSpace(s[|s| - n..])
    ensures n < |s| ==> !IsSpace(s[|s| - n - 1])
  {
    if s != [] && IsSpace(s[|s| - 1]) then 1 + TrailingSpace(s[..|s| - 1]) else 0
  }

  /** `s.strip()`: `s` without white space at either end, and nothing else removed. */
  function Strip(s: string): (r: string)
    ensures Trimmed(r)
    ensures var k := LeadingSpace(s);
      k + |r| <= |s| && s[k..k + |r|] == r && AllSpace(s[..k]) && AllSpace(s[k + |r|..])
  {
    var k := LeadingSpace(s);
    var rest := s[k..];
    var n := |rest| - TrailingSpace(rest);
    var r := rest[..n];
    assert s[k..k + n] == r;
    assert AllSpace(s[k + n..]) by {
      assert s[k + n..] == rest[n..];
    }
    assert Trimmed(r) by {
      if n > 0 {
        assert r[0] == s[k] && !IsSpace(s[k]);
        assert r[n - 1] == rest[n - 1] && !IsSpace(rest[n - 1]);
      }
    }
    r
  }

  lemma AllSpaceConcat(a: string, b: string)
    requires AllSpace(a) && AllSpace(b)
    ensures AllSpace(a + b)
  {
  }

  /** A white-space run followed by a character that is not white space. */
  lemma {:induction false} LeadingSpaceOf(a: string, t: string)
    requires AllSpace(a) && t != [] && !IsSpace(t[0])
    ensures LeadingSpace(a + t) == |a|
    decreases |a|
  {
    if a == [] {
      assert a + t == t;
    } else {
      assert (a + t)[0] == a[0];
      assert (a + t)[1..] == a[1..] + t;
      LeadingSpaceOf(a[1..], t);
    }
  }

  /** A character that is not white space followed by a white-space run. */
  lemma {:induction false} TrailingSpaceOf(t: string, b: string)
    requires AllSpace(b) && t != [] && !IsSpace(t[|t| - 1])
    ensures TrailingSpace(t + b) == |b|
    decreases |b|
  {
    if b == [] {
      assert t + b == t;
    } else {
      var s := t + b;
      assert s[|s| - 1] == b[|b| - 1];
      assert s[..|s| - 1] == t + b[..|b| - 1];
      TrailingSpaceOf(t, b[..|b| - 1]);
    }
  }

  /** Text that is all white space strips to nothing. */
  lemma {:induction false} LeadingAllSpace(s: string)
    requires AllSpace(s)
    ensures LeadingSpace(s) == |s|
    decreases |s|
  {
    if s != [] {
      LeadingAllSpace(s[1..]);
    }
  }

  /** Stripping is determined by the text between the white-space margins. */
  lemma StripUnique(a: string, r: string, b: string)
    requires AllSpace(a) && AllSpace(b) && Trimmed(r)
    ensures Strip(a + r + b) == r
  {
    var s := a + r + b;
    if r == [] {
      assert s == a + b;
      AllSpaceConcat(a, b);
      LeadingAllSpace(s);
    } else {
      assert s == a + (r + b);
      LeadingSpaceOf(a, r + b);
      var rest := s[|a|..];
      assert rest == r + b;
      TrailingSpaceOf(r, b);
      assert rest[..|rest| - |b|] == r;
    }
  }

  lemma StripIdempotent(s: string)
    ensures Strip(Strip(s)) == Strip(s)
  {
    StripUnique("", Strip(s), "");
    assert "" + Strip(s) + "" == Strip(s);
  }

  /** White space added around a text does not change what `strip` gives. */
  lemma StripPadded(p: string, t: string, q: string)
    requires AllSpace(p) && AllSpace(q)
    ensures Strip(p + t + q) == Strip(t)
  {
    var k := LeadingSpace(t);
    var r := Strip(t);
    var a, b := t[..k], t[k + |r|..];
    SplitInThree(t, k, |r|);
    AllSpaceConcat(p, a);
    AllSpaceConcat(b, q);
    Regroup(p, a, r, b, q);
    StripUnique(p + a, r, b + q);
  }

  lemma SplitInThree(t: string, k: nat, n: nat)
    requires k + n <= |t|
    ensures t == t[..k] + t[k..k + n] + t[k + n..]
  {
  }

  lemma Regroup(p: string, a: string, r: string, b: string, q: string)
    ensures p + (a + r + b) + q == (p + a) + r + (b + q)
  {
  }

  /** `c.lower()` for ASCII letters; every other character is kept. */
  function LowerChar(c: char): char {
    if 'A' <= c <= 'Z' then (c as int + 32) as char else c
  }

  /** `s.lower()` (ASCII letters only). */
  function Lower(s: string): (r: string)
    ensures |r| == |s|
    ensures forall i :: 0 <= i < |s| ==> r[i] == LowerChar(s[i])
  {
    if s == [] then [] else [LowerChar(s[0])] + Lower(s[1..])
  }

  lemma LowerConcat(a: string, b: string)
    ensures Lower(a + b) == Lower(a) + Lower(b)
  {
  }

  lemma LowerKeepsSpace(s: string)
    requires AllSpace(s)
    ensures AllSpace(Lower(s))
  {
    forall i | 0 <= i < |s| ensures IsSpace(Lower(s)[i]) {
      assert Lower(s)[i] == LowerChar(s[i]);
    }
  }

  lemma LowerKeepsTrimmed(s: string)
    requires Trimmed(s)
    ensures Trimmed(Lower(s))
  {
    if s != [] {
      assert Lower(s)[0] == LowerChar(s[0]);
      assert Lower(s)[|s| - 1] == LowerChar(s[|s| - 1]);
    }
  }

  /** Lower-casing and stripping commute: lower-casing never makes or unmakes white space. */
  lemma LowerStripCommute(s: string)
    ensures Lower(Strip(s)) == Strip(Lower(s))
  {
    var k := LeadingSpace(s);
    var r := Strip(s);
    var a, b := s[..k], s[k + |r|..];
    assert s == a + r + b;
    LowerConcat(a + r, b);
    LowerConcat(a, r);
    LowerKeepsSpace(a);
    LowerKeepsSpace(b);
    LowerKeepsTrimmed(r);
    StripUnique(Lower(a), Lower(r), Lower(b));
  }

  /** The normal form the rule-based comparator compares: `s.strip().lower()`. */
  function Normalize(s: string): string {
    Lower(Strip(s))
  }

  /** Texts that differ only in letter case and surrounding white space normalise alike. */
  lemma NormalizeIgnoresCaseAndPadding(s: string, t: string, p: string, q: string)
    requires AllSpace(p) && AllSpace(q)
    requires Lower(s) == Lower(t)
    ensures Normalize(p + t + q) == Normalize(s)
  {
    StripPadded(p, t, q);
    LowerStripCommute(s);
    LowerStripCommute(t);
  }

  predicate StartsWith(s: string, p: string) {
    |p| <= |s| && s[..|p|] == p
  }

  /** `s.endswith(p)` */
  predicate EndsWith(s: string, p: string) {
    |p| <= |s| && s[|s| - |p|..] == p
  }

  /** `p in s` (substring search). */
  predicate Contains(s: string, p: string)
    decreases |s|
  {
    StartsWith(s, p) || (s != [] && Contains(s[1..], p))
  }

  lemma {:induction false} ContainsLength(s: string, p: string)
    requires Contains(s, p)
    ensures |p| <= |s|
    decreases |s|
  {
    if !StartsWith(s, p) {
      ContainsLength(s[1..], p);
    }
  }

  /** An occurrence at a known position is found by `in`. */
  lemma {:induction false} ContainsAt(s: string, p: string, i: nat)
    requires i + |p| <= |s| && s[i..i + |p|] == p
    ensures Contains(s, p)
    decreases i
  {
    if i > 0 {
      assert s[1..][i - 1..i - 1 + |p|] == s[i..i + |p|];
      ContainsAt(s[1..], p, i - 1);
    }
  }

  /** Where `in` found its match. */
  lemma {:induction false} ContainsIndex(s: string, p: string) returns (i: nat)
    requires Contains(s, p)
    ensures i + |p| <= |s| && s[i..i + |p|] == p
    decreases |s|
  {
    if StartsWith(s, p) {
      i := 0;
    } else {
      var j := ContainsIndex(s[1..], p);
      assert s[1..][j..j + |p|] == s[j + 1..j + 1 + |p|];
      i := j + 1;
    }
  }

  /** Whatever occurs in a part of a text occurs in the whole text. */
  lemma ContainsInfix(a: string, s: string, b: string, p: string)
    requires Contains(s, p)
    ensures Contains(a + s + b, p)
  {
    var i := ContainsIndex(s, p);
    assert (a + s + b)[|a| + i..|a| + i + |p|] == s[i..i + |p|];
    ContainsAt(a + s + b, p, |a| + i);
  }

  /** A text that contains `p + q` contains `p`. */
  lemma ContainsPrefixOfPattern(s: string, p: string, q: string)
    requires Contains(s, p + q)
    ensures Contains(s, p)
  {
    var i := ContainsIndex(s, p + q);
    assert s[i..i + |p|] == (p + q)[..|p|];
    ContainsAt(s, p, i);
  }

  /** `s.replace(pat, rep)`: every non-overlapping occurrence of `pat`, scanned
      from the left, is replaced by `rep`. */
  function ReplaceAll(s: string, pat: string, rep: string): string
    requires pat != []
    decreases |s|
  {
    if |s| < |pat| then s
    else if StartsWith(s, pat) then rep + ReplaceAll(s[|pat|..], pat, rep)
    else [s[0]] + ReplaceAll(s[1..], pat, rep)
  }

  /** Replacing a pattern that does not occur changes nothing. */
  lemma {:induction false} ReplaceAbsent(s: string, pat: string, rep: string)
    requires pat != [] && !Contains(s, pat)
    ensures ReplaceAll(s, pat, rep) == s
    decreases |s|
  {
    if |s| >= |pat| {
      ReplaceAbsent(s[1..], pat, rep);
      assert [s[0]] + s[1..] == s;
    }
  }

  /** A prefix free of backticks passes through a replacement whose pattern starts with one. */
  lemma {:induction false} ReplacePassesPlainPrefix(s: string, t: string, pat: string, rep: string)
    requires pat != [] && pat[0] == '`' && '`' !in s
    ensures ReplaceAll(s + t, pat, rep) == s + ReplaceAll(t, pat, rep)
    decreases |s|
  {
    if s == [] {
      assert s + t == t;
    } else if |s + t| < |pat| {
      assert ReplaceAll(t, pat, rep) == t;
    } else {
      assert (s + t)[0] == s[0];
      assert !StartsWith(s + t, pat);
      assert (s + t)[1..] == s[1..] + t;
      ReplacePassesPlainPrefix(s[1..], t, pat, rep);
      assert [s[0]] + s[1..] == s;
    }
  }

  /** The Markdown code-fence marker. */
  const Fence := "```"

  /** Removing every fence leaves text that begins with a backtick only if the input did. */
  lemma UnfencedHead(u: string)
    ensures var r := ReplaceAll(u, Fence, "");
      r != [] && r[0] == '`' ==> u != [] && u[0] == '`'
  {
    if |u| >= |Fence| && StartsWith(u, Fence) {
      assert u[..3][0] == u[0];
    }
  }

  /** ... and begins with two backticks only if the input did. */
  lemma UnfencedHeadPair(u: string)
    ensures var r := ReplaceAll(u, Fence, "");
      |r| >= 2 && r[0] == '`' && r[1] == '`' ==> |u| >= 2 && u[0] == '`' && u[1] == '`'
  {
    var r := ReplaceAll(u, Fence, "");
    if |u| >= |Fence| {
      if StartsWith(u, Fence) {
        assert u[..3][0] == u[0] && u[..3][1] == u[1];
      } else if |r| >= 2 && r[0] == '`' && r[1] == '`' {
        var t := ReplaceAll(u[1..], Fence, "");
        assert r == [u[0]] + t;
        assert t[0] == r[1];
        UnfencedHead(u[1..]);
      }
    }
  }

  /** After `s.replace("```", "")` no fence is left, not even one formed by
      text that was separated by a removed fence. */
  lemma {:induction false} NoFenceAfterReplace(s: string)
    ensures !Contains(ReplaceAll(s, Fence, ""), Fence)
    decreases |s|
  {
    var r := ReplaceAll(s, Fence, "");
    if |s| < |Fence| {
      if Contains(r, Fence) {
        ContainsLength(r, Fence);
      }
    } else if StartsWith(s, Fence) {
      assert r == ReplaceAll(s[3..], Fence, "");
      NoFenceAfterReplace(s[3..]);
    } else {
      var t := ReplaceAll(s[1..], Fence, "");
      assert r == [s[0]] + t;
      assert r[1..] == t;
      NoFenceAfterReplace(s[1..]);
      UnfencedHeadPair(s[1..]);
    }
  }

  /** A text free of `p` stays free of it when stripped. */
  lemma StripKeepsAbsence(s: string, p: string)
    requires !Contains(s, p)
    ensures !Contains(Strip(s), p)
  {
    var k := LeadingSpace(s);
    var r := Strip(s);
    if Contains(r, p) {
      assert s == s[..k] + r + s[k + |r|..];
      ContainsInfix(s[..k], r, s[k + |r|..], p);
    }
  }

  /** `sep.join(items)` */
  function Join(sep: string, items: seq<string>): string {
    if items == [] then ""
    else if |items| == 1 then items[0]
    else items[0] + sep + Join(sep, items[1..])
  }

  /** Whatever occurs in one joined item occurs in the joined text. */
  lemma {:induction false} JoinContainsItem(sep: string, items: seq<string>, i: nat, p: string)
    requires i < |items| && Contains(items[i], p)
    ensures Contains(Join(sep, items), p)
    decreases i
  {
    if |items| == 1 {
    } else if i == 0 {
      ContainsInfix("", items[0], sep + Join(sep, items[1..]), p);
      assert "" + items[0] + (sep + Join(sep, items[1..])) == Join(sep, items);
    } else {
      JoinContainsItem(sep, items[1..], i - 1, p);
      ContainsInfix(items[0] + sep, Join(sep, items[1..]), "", p);
      assert (items[0] + sep) + Join(sep, items[1..]) + "" == Join(sep, items);
    }
  }

  /** `s.split(",")[0]`: the text before the first comma, or all of `s`. */
  function BeforeComma(s: string): (r: string)
    ensures StartsWith(s, r)
    ensures ',' !in r
    ensures |r| < |s| ==> s[|r|] == ','
  {
    if s == [] || s[0] == ',' then [] else [s[0]] + BeforeComma(s[1..])
  }

  /** `s[:n]` */
  function Take(s: string, n: nat): (r: string)
    ensures |r| <= n && StartsWith(s, r)
    ensures |s| >= n ==> |r| == n
    ensures |s| <= n ==> r == s
  {
    if |s| <= n then s else s[..n]
  }

  function DigitChar(d: nat): char
    requires d < 10
  {
    "0123456789"[d]
  }

  function Digits(n: nat): string
    decreases n
  {
    if n < 10 then [DigitChar(n)] else Digits(n / 10) + [DigitChar(n % 10)]
  }

  /** `str(i)` for an `int` */
  function IntToString(i: int): string {
    if i < 0 then "-" + Digits(-i) else Digits(i)
  }
}
