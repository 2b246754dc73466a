/** The text filter of the note listing. The query builder turns `column.contains(q)` into
    `column LIKE '%' || q || '%'` without an escape character, and SQLite's built-in LIKE
    folds the case of ASCII letters only, lets `%` match any run of characters and `_`
    any single character. */
module SqlLike {

  /** ASCII upper case to lower case; every other character is left alone. */
  function Fold(c: char): char {
    if 'A' <= c <= 'Z' then (c as int + 32) as char else c
  }

  predicate IsWildcard(c: char) {
    c == '%' || c == '_'
  }

  predicate NoWildcards(p: string) {
    forall i :: 0 <= i < |p| ==> !IsWildcard(p[i])
  }

  /** `s LIKE p`. */
  function Like(s: string, p: string): bool
    decreases |s| + |p|
  {
    if p == [] then s == []
    else if p[0] == '%' then Like(s, p[1..]) || (s != [] && Like(s[1..], p))
    else s != [] && (p[0] == '_' || Fold(s[0]) == Fold(p[0])) && Like(s[1..], p[1..])
  }

  /** `s.contains(q)` as the query runs it. */
  predicate Contains(s: string, q: string) {
    Like(s, "%" + q + "%")
  }

  /** Equal up to ASCII case. */
  predicate FoldEqual(a: string, b: string) {
    |a| == |b| && forall i :: 0 <= i < |a| ==> Fold(a[i]) == Fold(b[i])
  }

  /** `q` occurs in `s` at position `i` up to ASCII case. */
  predicate OccursFoldedAt(q: string, s: string, i: int) {
    0 <= i <= |s| - |q| && FoldEqual(s[i..i + |q|], q)
  }

  ghost predicate OccursFolded(q: string, s: string) {
    exists i :: OccursFoldedAt(q, s, i)
  }

  /** `q` occurs in `s` at position `i` exactly. */
  predicate OccursAt(q: string, s: string, i: int) {
    0 <= i <= |s| - |q| && s[i..i + |q|] == q
  }

  ghost predicate Occurs(q: string, s: string) {
    exists i :: OccursAt(q, s, i)
  }

  lemma {:induction false} PercentMatchesAll(s: string)
    ensures Like(s, "%")
  {
    if s != [] {
      PercentMatchesAll(s[1..]);
    }
  }

  /** A wildcard-free `p` followed by `%` matches exactly the strings that start with `p`
      up to ASCII case. */
  lemma {:induction false} PrefixThenPercent(s: string, p: string)
    requires NoWildcards(p)
    ensures Like(s, p + "%") <==> |p| <= |s| && FoldEqual(s[..|p|], p)
  {
    if p == [] {
      assert p + "%" == "%";
      PercentMatchesAll(s);
    } else {
      assert (p + "%")[0] == p[0] && (p + "%")[1..] == p[1..] + "%";
      assert NoWildcards(p[1..]) by {
        forall i | 0 <= i < |p[1..]| ensures !IsWildcard(p[1..][i]) {
          assert p[1..][i] == p[i + 1];
        }
      }
      if s != [] {
        PrefixThenPercent(s[1..], p[1..]);
        if |p| <= |s| {
          assert s[1..][..|p| - 1] == s[1..|p|];
          if Fold(s[0]) == Fold(p[0]) && FoldEqual(s[1..|p|], p[1..]) {
            forall i | 0 <= i < |p| ensures Fold(s[..|p|][i]) == Fold(p[i]) {
              if i > 0 { assert s[1..|p|][i - 1] == s[i] && p[1..][i - 1] == p[i]; }
            }
          }
          if FoldEqual(s[..|p|], p) {
            assert Fold(s[..|p|][0]) == Fold(p[0]);
            forall i | 0 <= i < |p| - 1 ensures Fold(s[1..|p|][i]) == Fold(p[1..][i]) {
              assert s[..|p|][i + 1] == s[1..|p|][i];
            }
          }
        }
      }
    }
  }

  /** A leading `%` lets the rest of the pattern match any suffix. */
  lemma {:induction false} LeadingPercent(s: string, r: string)
    ensures Like(s, "%" + r) <==> exists i :: 0 <= i <= |s| && Like(s[i..], r)
  {
    assert ("%" + r)[0] == '%' && ("%" + r)[1..] == r;
    assert s[0..] == s;
    if s != [] {
      LeadingPercent(s[1..], r);
      if exists j :: 0 <= j <= |s[1..]| && Like(s[1..][j..], r) {
        var j :| 0 <= j <= |s[1..]| && Like(s[1..][j..], r);
        assert s[1..][j..] == s[j + 1..];
      }
      if exists i :: 0 <= i <= |s| && Like(s[i..], r) {
        var i :| 0 <= i <= |s| && Like(s[i..], r);
        if i > 0 {
          assert s[1..][i - 1..] == s[i..];
        }
      }
    }
  }

  /** For a query free of `%` and `_`, the filter is a substring test up to ASCII case. */
  lemma ContainsIsFoldedSubstring(s: string, q: string)
    requires NoWildcards(q)
    ensures Contains(s, q) <==> OccursFolded(q, s)
  {
    assert "%" + q + "%" == "%" + (q + "%");
    LeadingPercent(s, q + "%");
    if Contains(s, q) {
      var i :| 0 <= i <= |s| && Like(s[i..], q + "%");
      PrefixThenPercent(s[i..], q);
      assert s[i..][..|q|] == s[i..i + |q|];
      assert OccursFoldedAt(q, s, i);
    }
    if OccursFolded(q, s) {
      var i :| OccursFoldedAt(q, s, i);
      PrefixThenPercent(s[i..], q);
      assert s[i..][..|q|] == s[i..i + |q|];
    }
  }

  /** Whatever `q` holds, the pattern `q` followed by `%` accepts `q` and anything after. */
  lemma {:induction false} PatternMatchesItself(q: string, rest: string)
    ensures Like(q + rest, q + "%")
  {
    if q == [] {
      assert q + rest == rest && q + "%" == "%";
      PercentMatchesAll(rest);
    } else {
      PatternMatchesItself(q[1..], rest);
      assert (q + rest)[0] == q[0] && (q + rest)[1..] == q[1..] + rest;
      assert (q + "%")[0] == q[0] && (q + "%")[1..] == q[1..] + "%";
      if q[0] == '%' {
        assert Like(q[1..] + rest, q[1..] + "%");
        assert Like((q + rest)[1..], q + "%") by {
          assert (q + "%")[1..] == q[1..] + "%";
          assert q[1..] + rest == (q + rest)[1..];
        }
      }
    }
  }

  /** An exact occurrence of `q` always passes the filter, wildcards or not. */
  lemma OccurrencePassesFilter(s: string, q: string)
    requires Occurs(q, s)
    ensures Contains(s, q)
  {
    var i :| OccursAt(q, s, i);
    assert s[i..] == q + s[i + |q|..];
    PatternMatchesItself(q, s[i + |q|..]);
    assert "%" + q + "%" == "%" + (q + "%");
    LeadingPercent(s, q + "%");
  }

  /** The filter ignores ASCII case: `Alpha` passes the query `alpha`. */
  lemma FilterIgnoresCase()
    ensures Contains("Alpha", "alpha") && !Occurs("alpha", "Alpha")
  {
    var q := "alpha";
    assert NoWildcards(q);
    assert FoldEqual("Alpha"[0..5], q);
    ContainsIsFoldedSubstring("Alpha", q);
    assert OccursFoldedAt(q, "Alpha", 0);
    forall i ensures !OccursAt(q, "Alpha", i) {
      if i == 0 { assert "Alpha"[0..5][0] != q[0]; }
    }
  }
}
