/** List operations of PHP's array library that the scraper applies to its link and record lists,
    and the subsequence relation used to state that order is kept. */
module Seqs {

  function Min(a: int, b: int): int { if a <= b then a else b }

  function Max(a: int, b: int): int { if a <= b then b else a }

  predicate NoDups<T(==)>(s: seq<T>) {
    forall i, j :: 0 <= i < j < |s| ==> s[i] != s[j]
  }

  /** The position of the first occurrence of `x` in `s`. */
  function FirstIndex<T(==)>(s: seq<T>, x: T): (k: nat)
    requires x in s
    ensures k < |s| && s[k] == x && x !in s[..k]
  {
    if s[0] == x then 0 else 1 + FirstIndex(s[1..], x)
  }

  /** `array_unique` on a list of strings: later copies of an element are dropped, the first one stays in place. */
  function Dedupe<T(==)>(s: seq<T>): seq<T>
    decreases |s|
  {
    if s == [] then []
    else
      var d := Dedupe(s[..|s| - 1]);
      if s[|s| - 1] in d then d else d + [s[|s| - 1]]
  }

  /** `array_slice($s, 0, $length)`: the first `length` elements; a negative length instead
      leaves out that many elements at the end. */
  function Slice<T>(s: seq<T>, length: int): (r: seq<T>)
    ensures |r| <= |s| && r == s[..|r|]
    ensures length >= 0 ==> |r| == Min(length, |s|)
    ensures length < 0 ==> |r| == Max(0, |s| + length)
  {
    if length >= 0 then (if length < |s| then s[..length] else s)
    else if |s| + length > 0 then s[..|s| + length]
    else []
  }

  /** `a` can be obtained from `b` by deleting elements. */
  predicate IsSubsequence<T(==)>(a: seq<T>, b: seq<T>)
    decreases |b|
  {
    if a == [] then true
    else if b == [] then false
    else (a[0] == b[0] && IsSubsequence(a[1..], b[1..])) || IsSubsequence(a, b[1..])
  }

  lemma FirstIndexOfPrefix<T>(s: seq<T>, n: nat, x: T)
    requires n <= |s| && x in s[..n]
    ensures x in s && FirstIndex(s, x) == FirstIndex(s[..n], x)
  {
    var k := FirstIndex(s[..n], x);
    assert s[..k] == s[..n][..k];
  }

  /** `array_unique` keeps exactly the elements of its input, once each, in the order of their first occurrences. */
  lemma {:induction false} DedupeCorrect<T>(s: seq<T>)
    ensures NoDups(Dedupe(s))
    ensures forall x :: x in Dedupe(s) <==> x in s
    ensures forall i, j :: 0 <= i < j < |Dedupe(s)| ==> FirstIndex(s, Dedupe(s)[i]) < FirstIndex(s, Dedupe(s)[j])
  {
    if s != [] {
      var n := |s| - 1;
      var p := s[..n];
      var d := Dedupe(p);
      DedupeCorrect(p);
      assert s == p + [s[n]];
      forall x | x in p ensures FirstIndex(s, x) == FirstIndex(p, x) {
        FirstIndexOfPrefix(s, n, x);
      }
      if s[n] !in d {
        assert s[n] !in p;
        assert FirstIndex(s, s[n]) == n by {
          assert s[..n] == p;
        }
        var r := d + [s[n]];
        forall i, j | 0 <= i < j < |r| ensures FirstIndex(s, r[i]) < FirstIndex(s, r[j]) {
          if j == |d| {
            assert r[i] == d[i];
            assert FirstIndex(p, r[i]) < |p|;
          }
        }
      }
    }
  }

  lemma {:induction false} SubsequenceTransitive<T>(a: seq<T>, b: seq<T>, c: seq<T>)
    requires IsSubsequence(a, b) && IsSubsequence(b, c)
    ensures IsSubsequence(a, c)
    decreases |c|
  {
    if a != [] {
      assert b != [] && c != [];
      if b[0] == c[0] && IsSubsequence(b[1..], c[1..]) {
        if a[0] == b[0] && IsSubsequence(a[1..], b[1..]) {
          SubsequenceTransitive(a[1..], b[1..], c[1..]);
        } else {
          SubsequenceTransitive(a, b[1..], c[1..]);
        }
      } else {
        SubsequenceTransitive(a, b, c[1..]);
      }
    }
  }

  /** Every contiguous slice of a sequence is a subsequence of it. */
  lemma {:induction false} SliceIsSubsequence<T>(s: seq<T>, i: nat, j: nat)
    requires i <= j <= |s|
    ensures IsSubsequence(s[i..j], s)
    decreases |s|
  {
    if i < j {
      if i == 0 {
        SliceIsSubsequence(s[1..], 0, j - 1);
        assert s[i..j][1..] == s[1..][0..j - 1];
      } else {
        SliceIsSubsequence(s[1..], i - 1, j - 1);
        assert s[1..][i - 1..j - 1] == s[i..j];
      }
    }
  }

  lemma {:induction false} SubsequenceElements<T>(a: seq<T>, b: seq<T>, x: T)
    requires IsSubsequence(a, b) && x in a
    ensures x in b
    decreases |b|
  {
    if a[0] == b[0] && IsSubsequence(a[1..], b[1..]) {
      if x != a[0] {
        SubsequenceElements(a[1..], b[1..], x);
      }
    } else {
      SubsequenceElements(a, b[1..], x);
    }
  }

  lemma ConcatAssoc<T>(a: seq<T>, b: seq<T>, c: seq<T>)
    ensures a + b + c == a + (b + c)
  {
  }

  /** A non-empty sequence is its head followed by its tail, also in front of a suffix. */
  lemma HeadTail<T>(a: seq<T>, b: seq<T>)
    requires a != []
    ensures a == [a[0]] + a[1..] && a + b == [a[0]] + (a[1..] + b)
  {
  }

  /** Concatenating short displays gives the display of all their elements. */
  lemma Displays<T>(a: T, b: T, c: T, d: T, e: T)
    ensures [a] + [b] + [c] == [a, b, c]
    ensures [a] + [b] + [c, d, e] == [a, b, c, d, e]
    ensures [a] + [b, c] + [d] == [a, b, c, d]
  {
  }

  /** A prefix of a suffix is a slice. */
  lemma PrefixOfSuffix<T>(s: seq<T>, l: seq<T>, r: seq<T>)
    requires |l| <= |s| && l == s[|s| - |l|..]
    requires |r| <= |l| && r == l[..|r|]
    ensures |s| - |l| + |r| <= |s| && r == s[|s| - |l|..|s| - |l| + |r|]
  {
  }

  /** A sequence is its prefix, a middle slice and its suffix. */
  lemma SplitThree<T>(s: seq<T>, i: nat, j: nat)
    requires i <= j <= |s|
    ensures s == s[0..i] + s[i..j] + s[j..|s|]
  {
  }

  /** A subsequence of `b` is one of `[x] + b`, with or without `x` in front. */
  lemma SubsequenceCons<T>(x: T, a: seq<T>, b: seq<T>)
    requires IsSubsequence(a, b)
    ensures IsSubsequence(a, [x] + b) && IsSubsequence([x] + a, [x] + b)
  {
    assert ([x] + b)[1..] == b;
    assert ([x] + a)[1..] == a;
  }

  /** A subsequence of a list without duplicates has none either. */
  lemma {:induction false} SubsequenceNoDups<T>(a: seq<T>, b: seq<T>)
    requires IsSubsequence(a, b) && NoDups(b)
    ensures NoDups(a)
    decreases |b|
  {
    if a != [] {
      assert NoDups(b[1..]) by {
        forall i, j | 0 <= i < j < |b| - 1 ensures b[1..][i] != b[1..][j] {
          assert b[1..][i] == b[i + 1] && b[1..][j] == b[j + 1];
        }
      }
      if a[0] == b[0] && IsSubsequence(a[1..], b[1..]) {
        SubsequenceNoDups(a[1..], b[1..]);
        assert a[0] !in a[1..] by {
          if a[0] in a[1..] {
            SubsequenceElements(a[1..], b[1..], a[0]);
            assert false;
          }
        }
        forall i, j | 0 <= i < j < |a| ensures a[i] != a[j] {
          if i == 0 {
            assert a[j] == a[1..][j - 1];
          } else {
            assert a[i] == a[1..][i - 1] && a[j] == a[1..][j - 1];
          }
        }
      } else {
        SubsequenceNoDups(a, b[1..]);
      }
    }
  }

  /** The elements of `s` that satisfy `p`, in their order in `s`: a `WHERE` clause over a table scan. */
  function Filter<T(!new)>(s: seq<T>, p: T -> bool): (r: seq<T>)
    ensures |r| <= |s|
    ensures forall x :: x in r <==> x in s && p(x)
    ensures forall x :: x in r ==> multiset(r)[x] == multiset(s)[x]
  {
    if s == [] then []
    else
      assert s == [s[0]] + s[1..];
      (if p(s[0]) then [s[0]] else []) + Filter(s[1..], p)
  }
}
