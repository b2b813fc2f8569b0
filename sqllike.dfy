/**
 * SQLite's `LIKE` operator with its default behaviour: `%` matches any run of
 * characters, `_` matches exactly one, there is no escape character, and
 * letters compare without regard to ASCII case.
 */
module SqlLike {
  import opened Text

  /** `t LIKE p`. */
  function Like(p: string, t: string): bool
    decreases |p| + |t|
  {
    if p == [] then t == []
    else if p[0] == '%' then Like(p[1..], t) || (t != [] && Like(p, t[1..]))
    else t != [] && (p[0] == '_' || LowerChar(p[0]) == LowerChar(t[0])) && Like(p[1..], t[1..])
  }

  /** `kw` occurs in `t` at `i` when ASCII case is ignored. */
  predicate FoldedAt(t: string, kw: string, i: int)
  {
    0 <= i && i + |kw| <= |t| && Lower(t[i..i + |kw|]) == Lower(kw)
  }

  /** `kw` is a substring of `t` when ASCII case is ignored. */
  predicate ContainsFolded(t: string, kw: string)
  {
    exists i :: 0 <= i <= |t| - |kw| && FoldedAt(t, kw, i)
  }

  /** A keyword in which neither `%` nor `_` is a wildcard. */
  predicate Literal(kw: string)
  {
    '%' !in kw && '_' !in kw
  }

  /**
   * The pattern `'%' + kw + '%'` that the keyword search builds matches exactly the
   * texts that contain `kw`, ignoring ASCII case.
   */
  lemma LikeContains(kw: string, t: string)
    requires Literal(kw)
    ensures Like("%" + kw + "%", t) <==> ContainsFolded(t, kw)
  {
    var q := kw + "%";
    assert "%" + kw + "%" == "%" + q;
    LeadingPercent(q, t);
    if Like("%" + q, t) {
      var i :| 0 <= i <= |t| && Like(q, t[i..]);
      PrefixPattern(kw, t[i..]);
      FoldedSuffix(t, kw, i);
    }
    if ContainsFolded(t, kw) {
      var i :| 0 <= i <= |t| - |kw| && FoldedAt(t, kw, i);
      FoldedSuffix(t, kw, i);
      PrefixPattern(kw, t[i..]);
    }
  }

  /** A leading `%` lets the rest of the pattern match any suffix. */
  lemma {:induction false} LeadingPercent(q: string, t: string)
    ensures Like("%" + q, t) <==> exists i :: 0 <= i <= |t| && Like(q, t[i..])
    decreases |t|
  {
    var p := "%" + q;
    assert p[1..] == q;
    assert t[0..] == t;
    if t != [] {
      LeadingPercent(q, t[1..]);
      if Like(p, t[1..]) {
        var i :| 0 <= i <= |t[1..]| && Like(q, t[1..][i..]);
        assert t[1..][i..] == t[i + 1..];
      }
      if exists i :: 0 <= i <= |t| && Like(q, t[i..]) {
        var i :| 0 <= i <= |t| && Like(q, t[i..]);
        if i > 0 {
          assert t[1..][i - 1..] == t[i..];
        }
      }
    }
  }

  /** A literal keyword followed by `%` matches exactly the texts that start with it. */
  lemma {:induction false} PrefixPattern(kw: string, t: string)
    requires Literal(kw)
    ensures Like(kw + "%", t) <==> FoldedAt(t, kw, 0)
    decreases |kw|
  {
    if kw == [] {
      TrailingPercent(t);
      assert kw + "%" == "%";
      assert t[0..0] == [];
    } else {
      var p := kw + "%";
      assert p[0] == kw[0] && p[1..] == kw[1..] + "%";
      assert Literal(kw[1..]) by {
        assert forall c :: c in kw[1..] ==> c in kw;
      }
      if t != [] {
        PrefixPattern(kw[1..], t[1..]);
        if |kw| <= |t| {
          assert t[..|kw|][1..] == t[1..][..|kw| - 1];
          LowerCons(t[..|kw|]);
          LowerCons(kw);
          SameHeadTail(LowerChar(t[0]), LowerChar(kw[0]), Lower(t[1..][..|kw| - 1]), Lower(kw[1..]));
          assert t[0..|kw|] == t[..|kw|] && t[1..][0..|kw| - 1] == t[1..][..|kw| - 1];
        }
      }
    }
  }

  /** `%` on its own matches every text. */
  lemma {:induction false} TrailingPercent(t: string)
    ensures Like("%", t)
    decreases |t|
  {
    if t != [] {
      TrailingPercent(t[1..]);
    }
  }

  lemma FoldedSuffix(t: string, kw: string, i: int)
    requires 0 <= i <= |t|
    ensures FoldedAt(t, kw, i) <==> FoldedAt(t[i..], kw, 0)
  {
    if i + |kw| <= |t| {
      assert t[i..][0..|kw|] == t[i..i + |kw|];
    }
  }

  lemma SameHeadTail(a: char, b: char, x: string, y: string)
    ensures [a] + x == [b] + y <==> a == b && x == y
  {
    if [a] + x == [b] + y {
      assert ([a] + x)[0] == a && ([a] + x)[1..] == x;
      assert ([b] + y)[0] == b && ([b] + y)[1..] == y;
    }
  }
}
