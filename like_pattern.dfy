/** JPQL's `LOWER(x) LIKE LOWER(pattern)`, as the store's keyword queries
    use it: `%` matches any run of characters, `_` any single character,
    there is no escape character, and LOWER folds the ASCII letters. */
module LikePattern {

  function Lower(c: char): (r: char)
    ensures 'A' <= c <= 'Z' ==> 'a' <= r <= 'z'
    ensures !('A' <= c <= 'Z') ==> r == c
  {
    if 'A' <= c <= 'Z' then (c as int + 32) as char else c
  }

  function LowerString(s: string): (r: string)
    ensures |r| == |s|
    ensures forall i :: 0 <= i < |s| ==> r[i] == Lower(s[i])
  {
    if |s| == 0 then [] else [Lower(s[0])] + LowerString(s[1..])
  }

  /** Lower-casing distributes over concatenation. */
  lemma LowerAppend(a: string, b: string)
    ensures LowerString(a + b) == LowerString(a) + LowerString(b)
  {
    var l := LowerString(a + b);
    assert forall i :: 0 <= i < |a + b| ==> l[i] == Lower((a + b)[i]);
  }

  predicate IsWildcard(c: char) {
    c == '%' || c == '_'
  }

  predicate NoWildcards(k: string) {
    forall i :: 0 <= i < |k| ==> !IsWildcard(k[i])
  }

  /** Lower-casing neither creates nor removes a wildcard. */
  lemma LowerKeepsWildcards(k: string)
    ensures NoWildcards(LowerString(k)) <==> NoWildcards(k)
  {
  }

  /** `t LIKE p`. */
  predicate Like(t: string, p: string)
    decreases |t| + |p|
  {
    if |p| == 0 then |t| == 0
    else if p[0] == '%' then Like(t, p[1..]) || (|t| > 0 && Like(t[1..], p))
    else |t| > 0 && (p[0] == '_' || t[0] == p[0]) && Like(t[1..], p[1..])
  }

  /** `k` occurs in `t` starting at position `i`. */
  predicate OccursAt(t: string, k: string, i: int) {
    0 <= i <= |t| - |k| && t[i..i + |k|] == k
  }

  /** `k` occurs in `t` as a contiguous piece. */
  predicate Contains(t: string, k: string) {
    exists i | 0 <= i <= |t| - |k| :: OccursAt(t, k, i)
  }

  /** A literal piece of pattern matches itself and nothing else. */
  lemma {:induction false} LikeLiteralPrefix(t: string, k: string, rest: string)
    requires NoWildcards(k)
    ensures Like(t, k + rest) <==> |k| <= |t| && t[..|k|] == k && Like(t[|k|..], rest)
    decreases |k|
  {
    if |k| > 0 {
      assert (k + rest)[0] == k[0];
      assert (k + rest)[1..] == k[1..] + rest;
      if |t| > 0 {
        LikeLiteralPrefix(t[1..], k[1..], rest);
        if |k| <= |t| {
          assert t[1..][|k| - 1..] == t[|k|..];
          assert t[..|k|] == [t[0]] + t[1..][..|k| - 1];
          assert k == [k[0]] + k[1..];
        }
      }
    } else {
      assert k + rest == rest;
    }
  }

  /** A lone `%` matches every string. */
  lemma {:induction false} LikePercentAlone(t: string)
    ensures Like(t, "%")
    decreases |t|
  {
    assert "%"[1..] == [];
    if |t| > 0 {
      LikePercentAlone(t[1..]);
    }
  }

  /** A leading `%` lets the rest of the pattern match any suffix. */
  lemma {:induction false} LikeLeadingPercent(t: string, q: string)
    ensures Like(t, ['%'] + q) <==> exists i :: 0 <= i <= |t| && Like(t[i..], q)
    decreases |t|
  {
    var p := ['%'] + q;
    assert p[0] == '%' && p[1..] == q;
    assert t[0..] == t;
    if |t| > 0 {
      LikeLeadingPercent(t[1..], q);
      if exists i :: 0 <= i <= |t| && Like(t[i..], q) {
        var i :| 0 <= i <= |t| && Like(t[i..], q);
        if i > 0 {
          assert t[1..][i - 1..] == t[i..];
        }
      }
      if exists j :: 0 <= j <= |t| - 1 && Like(t[1..][j..], q) {
        var j :| 0 <= j <= |t| - 1 && Like(t[1..][j..], q);
        assert t[1..][j..] == t[j + 1..];
      }
    }
  }

  /** `t LIKE '%' + k + '%'` is substring search exactly when the keyword
      holds no wildcard. */
  lemma SurroundedLikeIsContains(t: string, k: string)
    requires NoWildcards(k)
    ensures Like(t, "%" + k + "%") <==> Contains(t, k)
  {
    var q := k + "%";
    assert "%" + k + "%" == ['%'] + q;
    LikeLeadingPercent(t, q);
    if Contains(t, k) {
      var i :| 0 <= i <= |t| - |k| && OccursAt(t, k, i);
      LikeLiteralPrefix(t[i..], k, "%");
      assert t[i..][..|k|] == t[i..i + |k|];
      LikePercentAlone(t[i..][|k|..]);
    }
    if Like(t, "%" + k + "%") {
      var i :| 0 <= i <= |t| && Like(t[i..], q);
      LikeLiteralPrefix(t[i..], k, "%");
      if |k| <= |t| - i {
        assert t[i..][..|k|] == t[i..i + |k|];
        assert OccursAt(t, k, i);
      }
    }
  }

  /** Without the no-wildcard condition the equivalence fails: the keyword
      "_" matches every non-empty string, though few contain an underscore. */
  lemma UnderscoreMatchesAnyCharacter(t: string)
    requires |t| > 0
    ensures Like(t, "%" + "_" + "%")
  {
    var q := "_" + "%";
    assert "%" + "_" + "%" == ['%'] + q;
    LikeLeadingPercent(t, q);
    assert q[0] == '_' && q[1..] == "%";
    LikePercentAlone(t[1..]);
    assert t[0..] == t;
  }
}
