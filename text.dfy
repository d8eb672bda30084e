/** The PHP and PCRE string primitives the scraper and the controller rely on, over code points. */
module Text {
  import opened Seqs

  /** PHP truthiness of a string: "" and "0" are falsy, every other string is truthy. */
  predicate Truthy(s: string) {
    s != "" && s != "0"
  }

  /** The characters `\s` matches in a PCRE pattern compiled without the `u` flag:
      tab, line feed, vertical tab, form feed, carriage return and space. */
  const PcreSpace: set<char> := {'\t', '\n', '\U{000B}', '\U{000C}', '\r', ' '}

  /** The characters PHP's `trim` strips when it is given no character list
      (form feed is not among them, NUL is). */
  const PhpTrimSet: set<char> := {' ', '\t', '\n', '\r', '\0', '\U{000B}'}

  /** The Unicode character classes `\p{L}`, `\p{N}` and `\s` of a pattern compiled with the `u` flag.
      Unicode's tables are not part of the model; they are given. */
  datatype UnicodeClasses = UnicodeClasses(isLetter: char -> bool, isNumber: char -> bool, isSpace: char -> bool)

  /** The tables agree with Unicode on the ASCII range. */
  predicate AsciiAgrees(u: UnicodeClasses) {
    && (forall c: char :: c < '\U{0080}' ==> (u.isLetter(c) <==> 'a' <= c <= 'z' || 'A' <= c <= 'Z'))
    && (forall c: char :: c < '\U{0080}' ==> (u.isNumber(c) <==> '0' <= c <= '9'))
    && (forall c: char :: c < '\U{0080}' ==> (u.isSpace(c) <==> c in PcreSpace))
  }

  /** `str_starts_with`. */
  predicate StartsWith(s: string, prefix: string) {
    |prefix| <= |s| && s[..|prefix|] == prefix
  }

  /** `str_contains`. */
  predicate Contains(s: string, part: string)
    decreases |s|
  {
    StartsWith(s, part) || (s != [] && Contains(s[1..], part))
  }

  /** `ltrim($s, $cs)`. */
  function TrimLeft(s: string, cs: set<char>): (r: string)
    ensures |r| <= |s| && r == s[|s| - |r|..]
    ensures forall i :: 0 <= i < |s| - |r| ==> s[i] in cs
    ensures r == [] || r[0] !in cs
  {
    if s != [] && s[0] in cs then TrimLeft(s[1..], cs) else s
  }

  /** `rtrim($s, $cs)`. */
  function TrimRight(s: string, cs: set<char>): (r: string)
    ensures |r| <= |s| && r == s[..|r|]
    ensures forall i :: |r| <= i < |s| ==> s[i] in cs
    ensures r == [] || r[|r| - 1] !in cs
  {
    if s != [] && s[|s| - 1] in cs then TrimRight(s[..|s| - 1], cs) else s
  }

  /** Neither end of `s` is a character of `cs`. */
  predicate Trimmed(s: string, cs: set<char>) {
    s == [] || (s[0] !in cs && s[|s| - 1] !in cs)
  }

  /** `trim($s, $cs)`: no character of `cs` is left at either end. */
  function Trim(s: string, cs: set<char>): (r: string)
    ensures |r| <= |s|
    ensures Trimmed(r, cs)
  {
    TrimRight(TrimLeft(s, cs), cs)
  }

  /** `trim` cuts out a contiguous slice of `s`, removing characters of `cs` only. */
  lemma TrimSlice(s: string, cs: set<char>)
    ensures exists i, j :: 0 <= i <= j <= |s| && Trim(s, cs) == s[i..j]
                           && (forall k :: 0 <= k < i ==> s[k] in cs)
                           && (forall k :: j <= k < |s| ==> s[k] in cs)
  {
    var l := TrimLeft(s, cs);
    var r := TrimRight(l, cs);
    assert Trim(s, cs) == r;
    PrefixOfSuffix(s, l, r);
    DropsTail(s, l, r, cs);
    var i, j := |s| - |l|, |s| - |l| + |r|;
    assert 0 <= i <= j <= |s| && Trim(s, cs) == s[i..j]
           && (forall k :: 0 <= k < i ==> s[k] in cs)
           && (forall k :: j <= k < |s| ==> s[k] in cs);
  }

  /** What `rtrim` drops from the suffix `l` of `s` is a tail of `s` made of `cs`. */
  lemma DropsTail(s: string, l: string, r: string, cs: set<char>)
    requires |l| <= |s| && l == s[|s| - |l|..]
    requires |r| <= |l| && forall k :: |r| <= k < |l| ==> l[k] in cs
    ensures forall k :: |s| - |l| + |r| <= k < |s| ==> s[k] in cs
  {
    forall k | |s| - |l| + |r| <= k < |s| ensures s[k] in cs {
      assert s[k] == l[k - (|s| - |l|)];
    }
  }

  /** `trim` leaves a string alone when neither end is in `cs`. */
  lemma TrimUntouched(s: string, cs: set<char>)
    requires s == [] || (s[0] !in cs && s[|s| - 1] !in cs)
    ensures Trim(s, cs) == s
  {
  }

  /** `preg_replace('/\s+/', ' ', $s)` without the `u` flag: each maximal run of `PcreSpace`
      characters becomes a single space. */
  function Collapse(s: string): (r: string)
    ensures r == [] <==> s == []
    decreases |s|
  {
    if s == [] then []
    else if s[0] in PcreSpace then [' '] + Collapse(TrimLeft(s[1..], PcreSpace))
    else [s[0]] + Collapse(s[1..])
  }

  /** The characters of `s` that are not PCRE whitespace, in order. */
  function Visible(s: string): string {
    if s == [] then [] else (if s[0] in PcreSpace then [] else [s[0]]) + Visible(s[1..])
  }

  /** A string in the shape `Collapse` produces: its only whitespace is single spaces. */
  predicate Collapsed(s: string) {
    && (forall i :: 0 <= i < |s| && s[i] in PcreSpace ==> s[i] == ' ')
    && (forall i :: 0 <= i < |s| - 1 && s[i] == ' ' ==> s[i + 1] != ' ')
  }

  lemma CollapseHead(s: string)
    requires s != []
    ensures Collapse(s) != [] && Collapse(s)[0] == if s[0] in PcreSpace then ' ' else s[0]
  {
  }

  /** After collapsing, no whitespace but single spaces is left. */
  lemma {:induction false} CollapseShape(s: string)
    ensures Collapsed(Collapse(s))
    decreases |s|
  {
    if s != [] {
      var r := Collapse(s);
      if s[0] in PcreSpace {
        var t := TrimLeft(s[1..], PcreSpace);
        CollapseShape(t);
        if t != [] {
          CollapseHead(t);
        }
        assert r == [' '] + Collapse(t);
        forall i | 0 <= i < |r| - 1 && r[i] == ' ' ensures r[i + 1] != ' ' {
          if i > 0 {
            assert r[i] == Collapse(t)[i - 1];
          }
        }
      } else {
        CollapseShape(s[1..]);
        assert r == [s[0]] + Collapse(s[1..]);
        forall i | 0 <= i < |r| - 1 && r[i] == ' ' ensures r[i + 1] != ' ' {
          assert r[i] == Collapse(s[1..])[i - 1];
        }
      }
    }
  }

  lemma {:induction false} VisibleTrimLeft(s: string)
    ensures Visible(TrimLeft(s, PcreSpace)) == Visible(s)
    decreases |s|
  {
    if s != [] && s[0] in PcreSpace {
      VisibleTrimLeft(s[1..]);
    }
  }

  /** Collapsing only replaces whitespace: every other character stays, in order. */
  lemma {:induction false} CollapseKeepsText(s: string)
    ensures Visible(Collapse(s)) == Visible(s)
    decreases |s|
  {
    if s != [] {
      if s[0] in PcreSpace {
        var t := TrimLeft(s[1..], PcreSpace);
        CollapseKeepsText(t);
        VisibleTrimLeft(s[1..]);
        assert Visible([' '] + Collapse(t)) == Visible(Collapse(t));
      } else {
        CollapseKeepsText(s[1..]);
        assert Visible([s[0]] + Collapse(s[1..])) == [s[0]] + Visible(Collapse(s[1..]));
      }
    }
  }

  /** A string already in collapsed shape is left alone; in particular collapsing is idempotent. */
  lemma {:induction false} CollapseFixesCollapsed(s: string)
    requires Collapsed(s)
    ensures Collapse(s) == s
    decreases |s|
  {
    if s != [] {
      assert Collapsed(s[1..]) by {
        forall i | 0 <= i < |s| - 2 && s[1..][i] == ' ' ensures s[1..][i + 1] != ' ' {
          assert s[1..][i] == s[i + 1] && s[1..][i + 1] == s[i + 2];
        }
      }
      if s[0] in PcreSpace {
        assert s[0] == ' ';
        assert TrimLeft(s[1..], PcreSpace) == s[1..];
      }
      CollapseFixesCollapsed(s[1..]);
    }
  }

  /** A string without whitespace is left alone. */
  lemma CollapseNoSpace(s: string)
    requires forall k :: 0 <= k < |s| ==> s[k] !in PcreSpace
    ensures Collapse(s) == s
  {
    CollapseFixesCollapsed(s);
  }

  lemma {:induction false} TrimLeftAppend(x: string, y: string, cs: set<char>)
    requires exists k :: 0 <= k < |x| && x[k] !in cs
    ensures TrimLeft(x + y, cs) == TrimLeft(x, cs) + y
    decreases |x|
  {
    assert (x + y)[0] == x[0];
    if x[0] in cs {
      assert (x + y)[1..] == x[1..] + y;
      var k :| 0 <= k < |x| && x[k] !in cs;
      assert x[1..][k - 1] == x[k];
      TrimLeftAppend(x[1..], y, cs);
    }
  }

  lemma {:induction false} TrimLeftRun(w: string, b: string, cs: set<char>)
    requires forall k :: 0 <= k < |w| ==> w[k] in cs
    requires b == [] || b[0] !in cs
    ensures TrimLeft(w + b, cs) == b
    decreases |w|
  {
    if w == [] {
      assert w + b == b;
    } else {
      assert (w + b)[0] == w[0] && (w + b)[1..] == w[1..] + b;
      TrimLeftRun(w[1..], b, cs);
    }
  }

  /** One step of `Collapse` on a string given as its first character and the rest. */
  lemma CollapseCons(c: char, s: string)
    ensures Collapse([c] + s) ==
              if c in PcreSpace then [' '] + Collapse(TrimLeft(s, PcreSpace)) else [c] + Collapse(s)
  {
    assert ([c] + s)[0] == c && ([c] + s)[1..] == s;
  }

  /** When `x` ends with a character outside `cs`, `ltrim` stops inside `x`: it keeps that last
      character and leaves anything appended to `x` alone. */
  lemma TrimLeftKeepsLast(x: string, y: string, cs: set<char>)
    requires x != [] && x[|x| - 1] !in cs
    ensures var l := TrimLeft(x, cs); l != [] && l[|l| - 1] == x[|x| - 1]
    ensures TrimLeft(x + y, cs) == TrimLeft(x, cs) + y
  {
    var l := TrimLeft(x, cs);
    assert l == x[|x| - |l|..];
    assert 0 <= |x| - 1 < |x| && x[|x| - 1] !in cs;
    TrimLeftAppend(x, y, cs);
  }

  /** Collapsing works piece by piece across a boundary that is not inside a whitespace run. */
  lemma {:induction false} CollapseAppend(a: string, b: string)
    requires a == [] || a[|a| - 1] !in PcreSpace
    ensures Collapse(a + b) == Collapse(a) + Collapse(b)
    decreases |a|, 1
  {
    if a == [] {
      assert a + b == b;
    } else if a[0] in PcreSpace {
      CollapseAppendAfterSpace(a, b);
    } else {
      CollapseAppendAfterText(a, b);
    }
  }

  /** The case of `CollapseAppend` where `a` opens with a visible character. */
  lemma {:induction false} CollapseAppendAfterText(a: string, b: string)
    requires a != [] && a[0] !in PcreSpace && a[|a| - 1] !in PcreSpace
    ensures Collapse(a + b) == Collapse(a) + Collapse(b)
    decreases |a|, 0
  {
    var c, t := a[0], a[1..];
    HeadTail(a, b);
    CollapseCons(c, t);
    CollapseCons(c, t + b);
    assert t == [] || t[|t| - 1] == a[|a| - 1];
    CollapseAppend(t, b);
    ConcatAssoc([c], Collapse(t), Collapse(b));
  }

  /** The case of `CollapseAppend` where `a` opens with whitespace. */
  lemma {:induction false} CollapseAppendAfterSpace(a: string, b: string)
    requires a != [] && a[0] in PcreSpace && a[|a| - 1] !in PcreSpace
    ensures Collapse(a + b) == Collapse(a) + Collapse(b)
    decreases |a|, 0
  {
    var c, t := a[0], a[1..];
    HeadTail(a, b);
    CollapseCons(c, t);
    CollapseCons(c, t + b);
    assert t != [] && t[|t| - 1] == a[|a| - 1];
    TrimLeftKeepsLast(t, b, PcreSpace);
    var l := TrimLeft(t, PcreSpace);
    CollapseAppend(l, b);
    ConcatAssoc([' '], Collapse(l), Collapse(b));
  }

  /** Each maximal run of whitespace, of any length and any mix of the `\s` characters,
      becomes exactly one space, and the text on either side is collapsed on its own. */
  lemma CollapseRun(a: string, w: string, b: string)
    requires a == [] || a[|a| - 1] !in PcreSpace
    requires w != [] && forall k :: 0 <= k < |w| ==> w[k] in PcreSpace
    requires b == [] || b[0] !in PcreSpace
    ensures Collapse(a + w + b) == Collapse(a) + [' '] + Collapse(b)
  {
    var wb := w + b;
    CollapseSpaceRun(w, b);
    CollapseAppend(a, wb);
    ConcatAssoc(a, w, b);
  }

  /** A whitespace run at the start becomes one space. */
  lemma CollapseSpaceRun(w: string, b: string)
    requires w != [] && forall k :: 0 <= k < |w| ==> w[k] in PcreSpace
    requires b == [] || b[0] !in PcreSpace
    ensures Collapse(w + b) == [' '] + Collapse(b)
  {
    var wb := w + b;
    assert wb[0] == w[0] && wb[1..] == w[1..] + b;
    TrimLeftRun(w[1..], b, PcreSpace);
  }

  /** `Visible` distributes over concatenation. */
  lemma {:induction false} VisibleAppend(a: string, b: string)
    ensures Visible(a + b) == Visible(a) + Visible(b)
    decreases |a|
  {
    if a == [] {
      assert a + b == b;
    } else {
      assert (a + b)[0] == a[0] && (a + b)[1..] == a[1..] + b;
      VisibleAppend(a[1..], b);
    }
  }

  lemma {:induction false} VisibleOfSpaces(w: string)
    requires forall k :: 0 <= k < |w| ==> w[k] in PcreSpace
    ensures Visible(w) == []
    decreases |w|
  {
    if w != [] {
      VisibleOfSpaces(w[1..]);
    }
  }

  /** Apart from NUL, every character `trim` removes is PCRE whitespace. */
  lemma TrimCharIsSpace(c: char)
    requires c in PhpTrimSet && c != '\0'
    ensures c in PcreSpace
  {
  }

  /** A stretch of NUL-free text made of characters `trim` removes has nothing visible. */
  lemma TrimRangeInvisible(s: string, lo: nat, hi: nat)
    requires lo <= hi <= |s| && '\0' !in s
    requires forall k :: lo <= k < hi ==> s[k] in PhpTrimSet
    ensures Visible(s[lo..hi]) == []
  {
    var w := s[lo..hi];
    forall k | 0 <= k < |w| ensures w[k] in PcreSpace {
      assert w[k] == s[lo + k] && s[lo + k] in s;
      TrimCharIsSpace(w[k]);
    }
    VisibleOfSpaces(w);
  }

  /** Without NUL in the text, `trim` removes whitespace only, so every other character stays. */
  lemma TrimKeepsVisible(s: string)
    requires '\0' !in s
    ensures Visible(Trim(s, PhpTrimSet)) == Visible(s)
  {
    var r := Trim(s, PhpTrimSet);
    TrimSlice(s, PhpTrimSet);
    var i, j :| 0 <= i <= j <= |s| && r == s[i..j]
                && (forall k :: 0 <= k < i ==> s[k] in PhpTrimSet)
                && (forall k :: j <= k < |s| ==> s[k] in PhpTrimSet);
    TrimRangeInvisible(s, 0, i);
    TrimRangeInvisible(s, j, |s|);
    SplitThree(s, i, j);
    VisibleAppend(s[0..i] + r, s[j..|s|]);
    VisibleAppend(s[0..i], r);
  }

  lemma CollapseIdempotent(s: string)
    ensures Collapse(Collapse(s)) == Collapse(s)
  {
    CollapseShape(s);
    CollapseFixesCollapsed(Collapse(s));
  }

  /** The decimal digits of `n`, as PHP writes an integer when it is concatenated to a string. */
  function Decimal(n: nat): string
    decreases n
  {
    var d := ['0' + (n % 10) as char];
    if n < 10 then d else Decimal(n / 10) + d
  }
}
