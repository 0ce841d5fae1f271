/**
  The two pieces of Python string behaviour the catalogue relies on:
  the ordering `sorted` uses on `str` values (lexicographic by code point,
  a proper prefix first), and `str.strip()` with no argument (drop leading
  and trailing characters for which `str.isspace` holds).
 */
module Text {
  import opened Sequences

  // ---------------------------------------------------------------------------
  // Ordering
  // ---------------------------------------------------------------------------

  /** `a < b` on Python strings. */
  predicate Below(a: string, b: string)
  {
    if |a| == 0 then |b| > 0
    else if |b| == 0 then false
    else if a[0] != b[0] then a[0] < b[0]
    else Below(a[1..], b[1..])
  }

  lemma {:induction false} BelowIrreflexive(a: string)
    ensures !Below(a, a)
  {
    if |a| > 0 {
      BelowIrreflexive(a[1..]);
    }
  }

  lemma {:induction false} BelowTransitive(a: string, b: string, c: string)
    requires Below(a, b) && Below(b, c)
    ensures Below(a, c)
  {
    if |a| > 0 && a[0] == b[0] && b[0] == c[0] {
      BelowTransitive(a[1..], b[1..], c[1..]);
    }
  }

  /** Any two different strings are ordered one way or the other. */
  lemma {:induction false} BelowTotal(a: string, b: string)
    requires a != b
    ensures Below(a, b) || Below(b, a)
  {
    if |a| > 0 && |b| > 0 && a[0] == b[0] {
      assert a == [a[0]] + a[1..] && b == [b[0]] + b[1..];
      BelowTotal(a[1..], b[1..]);
    }
  }

  lemma BelowAsymmetric(a: string, b: string)
    requires Below(a, b)
    ensures !Below(b, a)
  {
  }

  /** Every element is strictly below every later one. */
  predicate StrictlySorted(s: seq<string>)
  {
    forall i, j :: 0 <= i < j < |s| ==> Below(s[i], s[j])
  }

  lemma StrictlySortedDistinct(s: seq<string>)
    requires StrictlySorted(s)
    ensures Distinct(s)
  {
    forall i, j | 0 <= i < j < |s|
      ensures s[i] != s[j]
    {
      BelowIrreflexive(s[i]);
    }
  }

  /** A subsequence of a strictly sorted sequence is strictly sorted. */
  lemma {:induction false} SubsequenceSorted(r: seq<string>, s: seq<string>)
    requires Subsequence(r, s) && StrictlySorted(s)
    ensures StrictlySorted(r)
    decreases |s|
  {
    if r != [] {
      if r[0] == s[0] && Subsequence(r[1..], s[1..]) {
        SubsequenceSorted(r[1..], s[1..]);
        SubsequenceElems(r[1..], s[1..]);
        forall i, j | 0 <= i < j < |r|
          ensures Below(r[i], r[j])
        {
          assert r[j] == r[1..][j - 1];
          if i == 0 {
            assert r[j] in Elems(s[1..]);
            var k :| 0 <= k < |s[1..]| && s[1..][k] == r[j];
            assert s[k + 1] == r[j];
          } else {
            assert r[i] == r[1..][i - 1];
          }
        }
      } else {
        assert StrictlySorted(s[1..]) by {
          forall i, j | 0 <= i < j < |s[1..]|
            ensures Below(s[1..][i], s[1..][j])
          {
            assert s[1..][i] == s[i + 1] && s[1..][j] == s[j + 1];
          }
        }
        SubsequenceSorted(r, s[1..]);
      }
    }
  }

  lemma BelowAll(x: string, s: seq<string>)
    requires StrictlySorted(s) && s != [] && Below(x, s[0])
    ensures forall j :: 0 <= j < |s| ==> Below(x, s[j])
  {
    forall j | 0 < j < |s|
      ensures Below(x, s[j])
    {
      BelowTransitive(x, s[0], s[j]);
    }
  }

  /** Insertion into a strictly sorted sequence of a string it lacks. */
  function Insert(x: string, s: seq<string>): (r: seq<string>)
    requires StrictlySorted(s) && x !in s
    ensures StrictlySorted(r)
    ensures Elems(r) == Elems(s) + {x}
    ensures |r| == |s| + 1
  {
    if s == [] then [x]
    else if Below(s[0], x) then
      var rest := Insert(x, s[1..]);
      assert forall z :: z in rest ==> Below(s[0], z) by {
        forall z | z in rest
          ensures Below(s[0], z)
        {
          assert z in Elems(rest);
          if z != x {
            assert z in Elems(s[1..]);
            var k :| 0 <= k < |s[1..]| && s[1..][k] == z;
            assert s[k + 1] == z;
          }
        }
      }
      assert forall j :: 0 <= j < |rest| ==> Below(s[0], rest[j]);
      assert Elems(s) == {s[0]} + Elems(s[1..]);
      [s[0]] + rest
    else
      BelowTotal(x, s[0]);
      BelowAll(x, s);
      assert Elems([x] + s) == {x} + Elems(s);
      [x] + s
  }

  /** `sorted(...)` of a list without duplicates. */
  function SortDistinct(s: seq<string>): (r: seq<string>)
    requires Distinct(s)
    ensures StrictlySorted(r)
    ensures Elems(r) == Elems(s)
    ensures |r| == |s|
  {
    if s == [] then []
    else
      var rest := SortDistinct(s[1..]);
      assert s[0] !in Elems(s[1..]);
      assert s[0] !in Elems(rest);
      assert Elems(s) == {s[0]} + Elems(s[1..]);
      Insert(s[0], rest)
  }

  /**
    A strictly sorted sequence is determined by its elements, so sorting a
    set of names gives one answer whatever order they were held in.
   */
  lemma {:induction false} SortedUnique(a: seq<string>, b: seq<string>)
    requires StrictlySorted(a) && StrictlySorted(b)
    requires Elems(a) == Elems(b)
    ensures a == b
  {
    if a != [] { assert a[0] in Elems(a); }
    if b != [] { assert b[0] in Elems(b); }
    if a != [] && b != [] {
      var k :| 0 <= k < |b| && b[k] == a[0];
      var m :| 0 <= m < |a| && a[m] == b[0];
      if k > 0 && m > 0 {
        BelowAsymmetric(b[0], b[k]);
        assert false;
      }
      assert a[0] == b[0];
      StrictlySortedDistinct(a);
      StrictlySortedDistinct(b);
      ElemsTail(a);
      ElemsTail(b);
      SortedUnique(a[1..], b[1..]);
      assert a == [a[0]] + a[1..] && b == [b[0]] + b[1..];
    }
  }

  // ---------------------------------------------------------------------------
  // Whitespace stripping
  // ---------------------------------------------------------------------------

  /** The characters Python's `str.isspace` accepts. */
  predicate IsSpace(ch: char)
  {
    || ('\t' <= ch <= '\r')                 // tab, line feed, vertical tab, form feed, carriage return
    || ('\U{1C}' <= ch <= '\U{1F}')         // file, group, record and unit separators
    || ch == ' '
    || ch == '\U{85}' || ch == '\U{A0}' || ch == '\U{1680}'
    || ('\U{2000}' <= ch <= '\U{200A}')
    || ch == '\U{2028}' || ch == '\U{2029}' || ch == '\U{202F}'
    || ch == '\U{205F}' || ch == '\U{3000}'
  }

  predicate AllSpace(s: string)
  {
    forall k :: 0 <= k < |s| ==> IsSpace(s[k])
  }

  /** Neither end of `s` is whitespace. */
  predicate Trimmed(s: string)
  {
    s == [] || (!IsSpace(s[0]) && !IsSpace(s[|s| - 1]))
  }

  /** `s.lstrip()`: drop leading whitespace. */
  function TrimStart(s: string): string
  {
    if |s| > 0 && IsSpace(s[0]) then TrimStart(s[1..]) else s
  }

  /** `s.rstrip()`: drop trailing whitespace. */
  function TrimEnd(s: string): string
  {
    if |s| > 0 && IsSpace(s[|s| - 1]) then TrimEnd(s[..|s| - 1]) else s
  }

  /** `lstrip` keeps a suffix, removes only whitespace, and stops at a non-space. */
  lemma {:induction false} TrimStartShape(s: string)
    ensures var r := TrimStart(s);
      && |r| <= |s| && r == s[|s| - |r|..]
      && AllSpace(s[..|s| - |r|])
      && (r == [] || !IsSpace(r[0]))
  {
    if |s| > 0 && IsSpace(s[0]) {
      TrimStartShape(s[1..]);
      var r := TrimStart(s[1..]);
      assert s[..|s| - |r|] == [s[0]] + s[1..][..|s[1..]| - |r|];
    } else {
      assert s[..0] == [];
    }
  }

  /** `rstrip` keeps a prefix, removes only whitespace, and stops at a non-space. */
  lemma {:induction false} TrimEndShape(s: string)
    ensures var r := TrimEnd(s);
      && |r| <= |s| && r == s[..|r|]
      && AllSpace(s[|r|..])
      && (r == [] || !IsSpace(r[|r| - 1]))
  {
    if |s| > 0 && IsSpace(s[|s| - 1]) {
      TrimEndShape(s[..|s| - 1]);
      var r := TrimEnd(s[..|s| - 1]);
      assert s[|r|..] == s[..|s| - 1][|r|..] + [s[|s| - 1]];
    } else {
      assert s[|s|..] == [];
    }
  }

  /** `s.strip()`: what is left is empty or starts and ends with a non-space. */
  function Strip(s: string): (r: string)
    ensures Trimmed(r)
    ensures |r| <= |s|
  {
    TrimStartShape(s);
    TrimEndShape(TrimStart(s));
    TrimEnd(TrimStart(s))
  }

  lemma {:induction false} TrimStartSkips(p: string, t: string)
    requires AllSpace(p)
    ensures TrimStart(p + t) == TrimStart(t)
  {
    if p != [] {
      assert (p + t)[0] == p[0] && (p + t)[1..] == p[1..] + t;
      TrimStartSkips(p[1..], t);
    } else {
      assert p + t == t;
    }
  }

  lemma {:induction false} TrimEndSkips(t: string, q: string)
    requires AllSpace(q)
    ensures TrimEnd(t + q) == TrimEnd(t)
    decreases |q|
  {
    if q != [] {
      assert (t + q)[|t + q| - 1] == q[|q| - 1];
      assert (t + q)[..|t + q| - 1] == t + q[..|q| - 1];
      TrimEndSkips(t, q[..|q| - 1]);
    } else {
      assert t + q == t;
    }
  }

  lemma {:induction false} TrimStartBlank(q: string)
    requires AllSpace(q)
    ensures TrimStart(q) == []
  {
    if q != [] {
      TrimStartBlank(q[1..]);
    }
  }

  /**
    `strip` removes exactly the surrounding whitespace: whenever `s` is a
    trimmed core `r` wrapped in whitespace on both sides, it returns `r`.
   */
  lemma StripWrapped(p: string, r: string, q: string)
    requires AllSpace(p) && AllSpace(q) && Trimmed(r)
    ensures Strip(p + r + q) == r
  {
    assert p + r + q == p + (r + q);
    TrimStartSkips(p, r + q);
    if r == [] {
      assert r + q == q;
      TrimStartBlank(q);
    } else {
      assert (r + q)[0] == r[0];
      TrimEndSkips(r, q);
    }
  }

  /** Stripping is idempotent: what it returns is already stripped. */
  lemma StripIdempotent(s: string)
    ensures Strip(Strip(s)) == Strip(s)
  {
  }

  lemma NotBlankSurvives(t: string)
    requires !AllSpace(t)
    ensures TrimStart(t) != [] && !AllSpace(TrimStart(t))
    ensures TrimEnd(t) != []
  {
  }

  /** A cell strips to the empty string exactly when it is blank. */
  lemma StripEmptyIff(s: string)
    ensures Strip(s) == [] <==> AllSpace(s)
  {
    if AllSpace(s) {
      StripWrapped(s, [], []);
      assert s + [] + [] == s;
    } else {
      NotBlankSurvives(s);
      NotBlankSurvives(TrimStart(s));
    }
  }
}
