/**
 * The few Python `str` operations the proxies apply to configuration text:
 * `split` on one separator character, `strip()`, ASCII `upper()` and `replace`.
 */
module Text {

  /** `str.isspace()` for one character: the characters `str.strip()` removes. */
  predicate IsSpace(c: char) {
    || c == ' '
    || '\t' <= c <= '\r'
    || '\U{1C}' <= c <= '\U{1F}'
    || c == '\U{85}' || c == '\U{A0}' || c == '\U{1680}'
    || '\U{2000}' <= c <= '\U{200A}'
    || c == '\U{2028}' || c == '\U{2029}' || c == '\U{202F}' || c == '\U{205F}' || c == '\U{3000}'
  }

  /** `s.split(sep)`: always at least one piece, and no piece holds the separator. */
  function Split(s: string, sep: char): (r: seq<string>)
    ensures |r| >= 1
    ensures forall k :: 0 <= k < |r| ==> sep !in r[k]
  {
    if |s| == 0 then [""]
    else
      var rest := Split(s[1..], sep);
      if s[0] == sep then [""] + rest
      else [[s[0]] + rest[0]] + rest[1..]
  }

  /** `sep.join(ps)`. */
  function Join(ps: seq<string>, sep: char): string {
    if |ps| == 0 then ""
    else if |ps| == 1 then ps[0]
    else ps[0] + [sep] + Join(ps[1..], sep)
  }

  lemma JoinCons(p: string, ps: seq<string>, sep: char)
    requires |ps| >= 1
    ensures Join([p] + ps, sep) == p + [sep] + Join(ps, sep)
  {
    assert ([p] + ps)[1..] == ps;
  }

  /** Joining the pieces of a split gives the text back. */
  lemma {:induction false} SplitJoin(s: string, sep: char)
    ensures Join(Split(s, sep), sep) == s
  {
    if |s| > 0 {
      var rest := Split(s[1..], sep);
      SplitJoin(s[1..], sep);
      if s[0] == sep {
        JoinCons("", rest, sep);
      } else if |rest| == 1 {
        assert Split(s, sep) == [[s[0]] + rest[0]];
      } else {
        JoinCons(rest[0], rest[1..], sep);
        assert [rest[0]] + rest[1..] == rest;
        JoinCons([s[0]] + rest[0], rest[1..], sep);
        assert [[s[0]] + rest[0]] + rest[1..] == Split(s, sep);
      }
    }
  }

  /** A piece without the separator stays glued to whatever follows it. */
  lemma {:induction false} SplitPrefix(p: string, t: string, sep: char)
    requires sep !in p
    ensures Split(p + t, sep) == [p + Split(t, sep)[0]] + Split(t, sep)[1..]
  {
    if |p| > 0 {
      SplitPrefix(p[1..], t, sep);
      assert (p + t)[1..] == p[1..] + t;
      assert [p[0]] + (p[1..] + Split(t, sep)[0]) == p + Split(t, sep)[0];
    } else {
      var r := Split(t, sep);
      assert p + t == t;
      assert p + r[0] == r[0];
      assert [r[0]] + r[1..] == r;
    }
  }

  /** Text without the separator is a single piece. */
  lemma SplitNone(p: string, sep: char)
    requires sep !in p
    ensures Split(p, sep) == [p]
  {
    SplitPrefix(p, "", sep);
    assert p + "" == p;
  }

  /** Splitting a join gives the pieces back, provided no piece holds the separator. */
  lemma {:induction false} JoinSplit(ps: seq<string>, sep: char)
    requires |ps| >= 1
    requires forall k :: 0 <= k < |ps| ==> sep !in ps[k]
    ensures Split(Join(ps, sep), sep) == ps
  {
    if |ps| == 1 {
      SplitPrefix(ps[0], "", sep);
      assert ps[0] + "" == ps[0];
    } else {
      JoinSplit(ps[1..], sep);
      var u := Join(ps[1..], sep);
      assert ([sep] + u)[1..] == u;
      assert Split([sep] + u, sep) == [""] + Split(u, sep);
      assert ([""] + Split(u, sep))[1..] == Split(u, sep);
      assert ps[0] + "" == ps[0];
      SplitPrefix(ps[0], [sep] + u, sep);
      assert ps[0] + [sep] + u == ps[0] + ([sep] + u);
      assert [ps[0]] + ps[1..] == ps;
    }
  }

  /** Splitting at a separator character splits the two sides independently. */
  lemma {:induction false} SplitAt(a: string, b: string, sep: char)
    ensures Split(a + [sep] + b, sep) == Split(a, sep) + Split(b, sep)
  {
    if |a| == 0 {
      assert a + [sep] + b == [sep] + b;
      SplitCons(sep, b, sep);
    } else {
      var t := a[1..] + [sep] + b;
      assert a + [sep] + b == [a[0]] + t;
      assert a == [a[0]] + a[1..];
      SplitAt(a[1..], b, sep);
      SplitCons(a[0], t, sep);
      SplitCons(a[0], a[1..], sep);
      ConsPieces(a[0], Split(a[1..], sep), Split(b, sep), sep);
    }
  }

  /** `Split` of a text with a known first character. */
  lemma SplitCons(c: char, t: string, sep: char)
    ensures Split([c] + t, sep) ==
      if c == sep then [""] + Split(t, sep) else [[c] + Split(t, sep)[0]] + Split(t, sep)[1..]
  {
    assert ([c] + t)[1..] == t;
  }

  /** Gluing a character onto the first piece commutes with appending more pieces. */
  lemma ConsPieces(c: char, x: seq<string>, y: seq<string>, sep: char)
    requires |x| >= 1
    ensures (if c == sep then [""] + (x + y) else [[c] + (x + y)[0]] + (x + y)[1..])
      == (if c == sep then [""] + x else [[c] + x[0]] + x[1..]) + y
  {
    assert (x + y)[0] == x[0];
    assert (x + y)[1..] == x[1..] + y;
  }

  /** `s.split(sep)` has one piece more than `s` has separators. */
  lemma {:induction false} SplitCount(s: string, sep: char)
    ensures |Split(s, sep)| == multiset(s)[sep] + 1
  {
    if |s| > 0 {
      SplitCount(s[1..], sep);
      assert s == [s[0]] + s[1..];
      assert multiset(s) == multiset([s[0]]) + multiset(s[1..]);
    }
  }

  /** The number of leading spaces. */
  function Lead(s: string): (n: nat)
    ensures n <= |s|
    ensures forall k :: 0 <= k < n ==> IsSpace(s[k])
    ensures n < |s| ==> !IsSpace(s[n])
  {
    if |s| > 0 && IsSpace(s[0]) then 1 + Lead(s[1..]) else 0
  }

  /** The number of trailing spaces. */
  function Trail(s: string): (n: nat)
    ensures n <= |s|
    ensures forall k :: |s| - n <= k < |s| ==> IsSpace(s[k])
    ensures n < |s| ==> !IsSpace(s[|s| - 1 - n])
  {
    if |s| > 0 && IsSpace(s[|s| - 1]) then 1 + Trail(s[..|s| - 1]) else 0
  }

  /** `s.strip()`. */
  function Strip(s: string): string {
    if Lead(s) == |s| then "" else s[Lead(s)..|s| - Trail(s)]
  }

  /** `strip()` keeps the stretch between the leading and the trailing spaces. */
  lemma StripShape(s: string)
    ensures Lead(s) + |Strip(s)| <= |s|
    ensures Strip(s) == s[Lead(s)..Lead(s) + |Strip(s)|]
    ensures forall k :: Lead(s) + |Strip(s)| <= k < |s| ==> IsSpace(s[k])
  {
    var l, t := Lead(s), Trail(s);
    if l < |s| {
      assert !IsSpace(s[l]);
      assert t < |s| - l;
    }
  }

  /** The stretch `strip()` keeps is empty or starts and ends with a non-space. */
  lemma StripEnds(s: string)
    ensures |Strip(s)| > 0 ==> !IsSpace(Strip(s)[0]) && !IsSpace(Strip(s)[|Strip(s)| - 1])
    ensures |Strip(s)| == 0 <==> forall k :: 0 <= k < |s| ==> IsSpace(s[k])
  {
    var l, t := Lead(s), Trail(s);
    if l < |s| {
      assert !IsSpace(s[l]);
      assert t < |s| - l;
      var r := s[l..|s| - t];
      assert r[0] == s[l];
      assert r[|r| - 1] == s[|s| - 1 - t];
    }
  }

  /** Text that starts and ends with a non-space is its own `strip()`. */
  lemma StripTrimmed(s: string)
    requires |s| > 0 && !IsSpace(s[0]) && !IsSpace(s[|s| - 1])
    ensures Strip(s) == s
  {
    assert Lead(s) == 0;
    assert Trail(s) == 0;
  }

  lemma StripIdempotent(s: string)
    ensures Strip(Strip(s)) == Strip(s)
  {
    StripEnds(s);
    if |Strip(s)| > 0 {
      StripTrimmed(Strip(s));
    }
  }

  function UpperChar(c: char): (d: char)
    ensures 'a' <= c <= 'z' ==> d as int == c as int - 32
    ensures !('a' <= c <= 'z') ==> d == c
  {
    if 'a' <= c <= 'z' then (c as int - 32) as char else c
  }

  /** `s.upper()` on the ASCII letters. */
  function Upper(s: string): (r: string)
    ensures |r| == |s|
    ensures forall k :: 0 <= k < |s| ==> r[k] == UpperChar(s[k])
  {
    seq(|s|, k requires 0 <= k < |s| => UpperChar(s[k]))
  }

  /** Upper-casing twice is upper-casing once. */
  lemma UpperIdempotent(s: string)
    ensures Upper(Upper(s)) == Upper(s)
    ensures forall k :: 0 <= k < |s| ==> !('a' <= Upper(s)[k] <= 'z')
  {
  }

  /** `t` occurs in `s` as a contiguous substring. */
  predicate Contains(s: string, t: string) {
    t <= s || (|s| > 0 && Contains(s[1..], t))
  }

  /** `s.replace(pat, rep)`: every leftmost non-overlapping occurrence of `pat`. */
  function Replace(s: string, pat: string, rep: string): string
    requires |pat| > 0
    decreases |s|
  {
    if |s| == 0 then ""
    else if pat <= s then rep + Replace(s[|pat|..], pat, rep)
    else [s[0]] + Replace(s[1..], pat, rep)
  }

  /** Nothing is replaced where `pat` does not occur. */
  lemma {:induction false} ReplaceAbsent(s: string, pat: string, rep: string)
    requires |pat| > 0 && !Contains(s, pat)
    ensures Replace(s, pat, rep) == s
    decreases |s|
  {
    if |s| > 0 {
      ReplaceAbsent(s[1..], pat, rep);
      assert [s[0]] + s[1..] == s;
    }
  }

  /** Replacing a pattern by itself changes nothing. */
  lemma {:induction false} ReplaceSelf(s: string, pat: string)
    requires |pat| > 0
    ensures Replace(s, pat, pat) == s
    decreases |s|
  {
    if |s| > 0 {
      if pat <= s {
        ReplaceSelf(s[|pat|..], pat);
        assert pat + s[|pat|..] == s;
      } else {
        ReplaceSelf(s[1..], pat);
        assert [s[0]] + s[1..] == s;
      }
    }
  }

  /**
   * One occurrence between two stretches the pattern does not touch is
   * replaced by `rep`.
   */
  lemma ReplaceOne(a: string, pat: string, b: string, rep: string)
    requires |pat| > 0
    requires ReplaceFree(a, pat)
    requires !Contains(b, pat)
    ensures Replace(a + pat + b, pat, rep) == a + rep + b
  {
    ReplaceThrough(a, pat, pat + b, rep);
    assert a + pat + b == a + (pat + b);
    assert (pat + b)[|pat|..] == b;
    ReplaceAbsent(b, pat, rep);
  }

  /** No occurrence of `pat` starts inside `a`, even one running past its end. */
  predicate ReplaceFree(a: string, pat: string) {
    forall k :: 0 <= k < |a| ==> !(pat <= a[k..] + pat)
  }

  lemma {:induction false} ReplaceThrough(a: string, pat: string, t: string, rep: string)
    requires |pat| > 0 && ReplaceFree(a, pat) && pat <= t
    ensures Replace(a + t, pat, rep) == a + Replace(t, pat, rep)
    decreases |a|
  {
    if |a| > 0 {
      assert a[0..] + pat == a + pat;
      assert (a + t)[1..] == a[1..] + t;
      assert ReplaceFree(a[1..], pat) by {
        forall k | 0 <= k < |a[1..]|
          ensures !(pat <= a[1..][k..] + pat)
        {
          assert a[1..][k..] == a[k + 1..];
        }
      }
      ReplaceThrough(a[1..], pat, t, rep);
      assert (a + t)[0] == a[0];
      assert [a[0]] + a[1..] == a;
    } else {
      assert a + t == t;
    }
  }

}
