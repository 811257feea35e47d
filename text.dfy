/** The few Ruby string operations the services rely on: `strip`, `empty?`, `downcase`,
    `include?`, `join` and `Integer#to_s`. */
module Text {

  /** Characters `String#strip` removes: NUL, tab, line feed, vertical tab, form feed,
      carriage return and space. */
  predicate IsSpace(c: char) {
    c == ' ' || c == '\t' || c == '\n' || c == '\r' || c as int == 0 || c as int == 11 || c as int == 12
  }

  /** Removes the longest all-whitespace prefix. */
  function TrimStart(s: string): (r: string)
    ensures |r| <= |s| && r == s[|s| - |r|..]
    ensures forall i :: 0 <= i < |s| - |r| ==> IsSpace(s[i])
    ensures r == [] || !IsSpace(r[0])
  {
    if s != [] && IsSpace(s[0]) then TrimStart(s[1..]) else s
  }

  /** Removes the longest all-whitespace suffix. */
  function TrimEnd(s: string): (r: string)
    ensures |r| <= |s| && r == s[..|r|]
    ensures forall i :: |r| <= i < |s| ==> IsSpace(s[i])
    ensures r == [] || !IsSpace(r[|r| - 1])
  {
    if s != [] && IsSpace(s[|s| - 1]) then TrimEnd(s[..|s| - 1]) else s
  }

  /** Ruby's `String#strip`. */
  function Strip(s: string): string {
    TrimEnd(TrimStart(s))
  }

  /** Ruby's `x.to_s.strip.empty?` on a string: nothing but whitespace (see `BlankIsStripEmpty`). */
  predicate Blank(s: string)
    decreases |s|
  {
    s == [] || (IsSpace(s[0]) && Blank(s[1..]))
  }

  lemma {:induction false} BlankIffAllSpace(s: string)
    ensures Blank(s) <==> forall i :: 0 <= i < |s| ==> IsSpace(s[i])
    decreases |s|
  {
    if s != [] {
      BlankIffAllSpace(s[1..]);
      assert forall i :: 1 <= i < |s| ==> s[i] == s[1..][i - 1];
    }
  }

  /** `Blank` is exactly "empty after `strip`". */
  lemma BlankIsStripEmpty(s: string)
    ensures Blank(s) <==> Strip(s) == ""
  {
    BlankIffAllSpace(s);
    TrimStartEmptyIffAllSpace(s);
    StripEmptyIffTrimStartEmpty(s);
  }

  lemma TrimStartEmptyIffAllSpace(s: string)
    ensures TrimStart(s) == "" <==> forall i :: 0 <= i < |s| ==> IsSpace(s[i])
  {
    var t := TrimStart(s);
    if t != [] {
      assert t[0] == s[|s| - |t|];
    }
  }

  lemma StripEmptyIffTrimStartEmpty(s: string)
    ensures Strip(s) == "" <==> TrimStart(s) == ""
  {
    var t := TrimStart(s);
    if t != [] {
      assert !IsSpace(t[0]);
    }
  }

  /** ASCII case folding of one character. */
  function Lower(c: char): char {
    if 'A' <= c <= 'Z' then (c as int + 32) as char else c
  }

  /** Ruby's `String#downcase`, on ASCII letters. */
  function Downcase(s: string): (r: string)
    ensures |r| == |s|
  {
    seq(|s|, i requires 0 <= i < |s| => Lower(s[i]))
  }

  predicate OccursAt(haystack: string, needle: string, k: int) {
    0 <= k <= |haystack| - |needle| && haystack[k..k + |needle|] == needle
  }

  /** Ruby's `haystack.include?(needle)`. */
  predicate Contains(haystack: string, needle: string) {
    exists k | 0 <= k <= |haystack| - |needle| :: OccursAt(haystack, needle, k)
  }

  /** Ruby's `Array#join(sep)` on strings. */
  function Join(parts: seq<string>, sep: string): string {
    if parts == [] then ""
    else if |parts| == 1 then parts[0]
    else parts[0] + sep + Join(parts[1..], sep)
  }

  /** Joining one more part appends the separator and that part. */
  lemma {:induction false} JoinSnoc(parts: seq<string>, p: string, sep: string)
    requires parts != []
    ensures Join(parts + [p], sep) == Join(parts, sep) + (sep + p)
    decreases |parts|
  {
    if |parts| == 1 {
      assert (parts + [p])[1..] == [p];
      assert Join(parts + [p], sep) == parts[0] + sep + p;
    } else {
      assert (parts + [p])[1..] == parts[1..] + [p];
      JoinSnoc(parts[1..], p, sep);
    }
  }

  /** After any prefix, a joined list starts with its first part, followed by the separator
      when a non-empty part comes next. */
  lemma JoinHead(prefix: string, parts: seq<string>, sep: string)
    ensures var r := prefix + Join(parts, sep);
            |r| >= |prefix| && r[..|prefix|] == prefix
    ensures |parts| == 1 ==> prefix + Join(parts, sep) == prefix + parts[0]
    ensures |parts| > 1 && parts[1] != [] ==>
              var r := prefix + Join(parts, sep);
              var head := prefix + parts[0] + sep;
              |r| > |head| && r[..|head|] == head
  {
    var r := prefix + Join(parts, sep);
    assert r[..|prefix|] == prefix;
    if |parts| > 1 && parts[1] != [] {
      var rest := Join(parts[1..], sep);
      assert |rest| > 0 by {
        assert parts[1..][0] == parts[1];
      }
      assert r == prefix + parts[0] + sep + rest;
      var head := prefix + parts[0] + sep;
      assert r[..|head|] == head;
    }
  }

  /** Every part of a joined list occurs in it, after any prefix. */
  lemma {:induction false} JoinHasPart(prefix: string, parts: seq<string>, sep: string, i: nat)
    requires i < |parts|
    ensures Contains(prefix + Join(parts, sep), parts[i])
    decreases i
  {
    var r := prefix + Join(parts, sep);
    if i == 0 {
      if |parts| == 1 {
        assert r == prefix + parts[0];
      } else {
        assert r == prefix + parts[0] + (sep + Join(parts[1..], sep));
      }
      assert r[|prefix|..|prefix| + |parts[0]|] == parts[0];
      assert OccursAt(r, parts[0], |prefix|);
    } else {
      assert r == (prefix + parts[0] + sep) + Join(parts[1..], sep);
      JoinHasPart(prefix + parts[0] + sep, parts[1..], sep, i - 1);
      assert parts[1..][i - 1] == parts[i];
    }
  }

  function DigitChar(d: nat): char
    requires d < 10
  {
    ('0' as int + d) as char
  }

  function NatToString(n: nat): (r: string)
    ensures |r| > 0
  {
    if n < 10 then [DigitChar(n)] else NatToString(n / 10) + [DigitChar(n % 10)]
  }

  /** Ruby's `Integer#to_s`. */
  function IntToString(n: int): string {
    if n < 0 then "-" + NatToString(-n) else NatToString(n)
  }

  /** `downcase` never turns a space into a non-space or back. */
  lemma LowerKeepsSpace(c: char)
    ensures IsSpace(Lower(c)) == IsSpace(c)
  {
  }

  /** Two strings with whitespace at the same positions lose the same prefix to TrimStart. */
  lemma {:induction false} TrimStartSamePattern(s: string, t: string)
    requires |s| == |t| && forall i :: 0 <= i < |s| ==> IsSpace(s[i]) == IsSpace(t[i])
    ensures |TrimStart(s)| == |TrimStart(t)|
  {
    if s != [] && IsSpace(s[0]) {
      TrimStartSamePattern(s[1..], t[1..]);
    }
  }

  lemma {:induction false} TrimEndSamePattern(s: string, t: string)
    requires |s| == |t| && forall i :: 0 <= i < |s| ==> IsSpace(s[i]) == IsSpace(t[i])
    ensures |TrimEnd(s)| == |TrimEnd(t)|
  {
    if s != [] && IsSpace(s[|s| - 1]) {
      TrimEndSamePattern(s[..|s| - 1], t[..|t| - 1]);
    }
  }

  lemma DowncaseSlice(s: string, a: nat, b: nat)
    requires a <= b <= |s|
    ensures Downcase(s[a..b]) == Downcase(s)[a..b]
  {
  }

  lemma DowncaseSamePattern(s: string)
    ensures forall i :: 0 <= i < |s| ==> IsSpace(s[i]) == IsSpace(Downcase(s)[i])
  {
    forall i | 0 <= i < |s| ensures IsSpace(s[i]) == IsSpace(Downcase(s)[i]) {
      LowerKeepsSpace(s[i]);
    }
  }

  /** Case folding keeps a string blank or non-blank. */
  lemma DowncaseKeepsBlank(s: string)
    ensures Blank(Downcase(s)) == Blank(s)
  {
    DowncaseSamePattern(s);
    BlankIffAllSpace(s);
    BlankIffAllSpace(Downcase(s));
  }

  /** Stripping and case folding commute: `s.strip.downcase == s.downcase.strip`. */
  lemma DowncaseStrip(s: string)
    ensures Downcase(Strip(s)) == Strip(Downcase(s))
  {
    var d := Downcase(s);
    DowncaseSamePattern(s);
    TrimStartSamePattern(s, d);
    var a := |s| - |TrimStart(s)|;
    var ts, td := TrimStart(s), TrimStart(d);
    assert ts == s[a..] && td == d[a..];
    DowncaseSamePattern(ts);
    DowncaseSlice(s, a, |s|);
    assert td == Downcase(ts);
    TrimEndSamePattern(ts, td);
    var e := |TrimEnd(ts)|;
    DowncaseSlice(ts, 0, e);
  }

  /** Leading whitespace is all `TrimStart` removes. */
  lemma {:induction false} TrimStartBlankPrefix(w: string, t: string)
    requires Blank(w)
    ensures TrimStart(w + t) == TrimStart(t)
    decreases |w|
  {
    if w != [] {
      assert (w + t)[0] == w[0] && (w + t)[1..] == w[1..] + t;
      TrimStartBlankPrefix(w[1..], t);
    } else {
      assert w + t == t;
    }
  }

  /** Trailing whitespace is all `TrimEnd` removes. */
  lemma {:induction false} TrimEndBlankSuffix(t: string, w: string)
    requires Blank(w)
    ensures TrimEnd(t + w) == TrimEnd(t)
    decreases |w|
  {
    if w != [] {
      BlankIffAllSpace(w);
      BlankIffAllSpace(w[..|w| - 1]);
      assert IsSpace(w[|w| - 1]) && (t + w)[|t + w| - 1] == w[|w| - 1];
      assert (t + w)[..|t + w| - 1] == t + w[..|w| - 1];
      TrimEndBlankSuffix(t, w[..|w| - 1]);
    } else {
      assert t + w == t;
    }
  }

  /** `TrimStart` stops at the first non-space character. */
  lemma {:induction false} TrimStartStopsAt(u: string, k: nat)
    requires k < |u| && !IsSpace(u[k]) && forall i :: 0 <= i < k ==> IsSpace(u[i])
    ensures TrimStart(u) == u[k..]
    decreases k
  {
    if k > 0 {
      assert u[1..][k - 1] == u[k];
      TrimStartStopsAt(u[1..], k - 1);
      assert u[1..][k - 1..] == u[k..];
    }
  }

  /** Once a non-space character is reached, what follows is kept by `TrimStart`. */
  lemma TrimStartAppend(s: string, t: string)
    requires TrimStart(s) != ""
    ensures TrimStart(s + t) == TrimStart(s) + t
  {
    var k := |s| - |TrimStart(s)|;
    assert TrimStart(s)[0] == s[k];
    TrimStartStopsAt(s + t, k);
    assert (s + t)[k..] == s[k..] + t;
  }

  /** `strip` ignores whitespace padding on either side. */
  lemma StripPadding(w1: string, s: string, w2: string)
    requires Blank(w1) && Blank(w2)
    ensures Strip(w1 + s + w2) == Strip(s)
  {
    assert w1 + s + w2 == w1 + (s + w2);
    TrimStartBlankPrefix(w1, s + w2);
    StripBlankSuffix(s, w2);
  }

  lemma StripBlankSuffix(s: string, w: string)
    requires Blank(w)
    ensures Strip(s + w) == Strip(s)
  {
    if TrimStart(s) != "" {
      TrimStartAppend(s, w);
      TrimEndBlankSuffix(TrimStart(s), w);
    } else {
      TrimStartEmptyIffAllSpace(s);
      BlankIffAllSpace(s);
      TrimStartBlankPrefix(s, w);
      TrimStartEmptyIffAllSpace(w);
      BlankIffAllSpace(w);
    }
  }

  /** Case folding is idempotent. */
  lemma DowncaseTwice(s: string)
    ensures Downcase(Downcase(s)) == Downcase(s)
  {
  }

  /** A string that starts and ends with a non-space character is its own `strip`. */
  lemma StripUnpadded(s: string)
    requires s != [] && !IsSpace(s[0]) && !IsSpace(s[|s| - 1])
    ensures Strip(s) == s
  {
  }

  /** Case folding leaves a string without capital letters as it is. */
  lemma DowncaseNoCapitals(s: string)
    requires forall i :: 0 <= i < |s| ==> !('A' <= s[i] <= 'Z')
    ensures Downcase(s) == s
  {
  }
}
