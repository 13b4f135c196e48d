/** The `contains` filters of the listing handlers. SQLAlchemy renders
    `column.contains(x)` as `column LIKE '%' || x || '%'`, and the store is
    SQLite (database.py), whose LIKE ignores the case of ASCII letters and
    reads `%` and `_` inside `x` as wildcards, since no ESCAPE clause is given. */
module SqlLike {
  import Text

  /** SQLite's LIKE compares ASCII letters without regard to case and every
      other character exactly. */
  predicate SameFolded(a: char, b: char) {
    Text.LowerChar(a) == Text.LowerChar(b)
  }

  /** `t LIKE p` in SQLite without an ESCAPE clause: `%` matches any run of
      characters, `_` any one character, anything else one character up to
      ASCII case. */
  predicate Like(t: string, p: string)
    decreases |t| + |p|
  {
    if |p| == 0 then |t| == 0
    else if p[0] == '%' then Like(t, p[1..]) || (|t| > 0 && Like(t[1..], p))
    else |t| > 0 && (p[0] == '_' || SameFolded(t[0], p[0])) && Like(t[1..], p[1..])
  }

  /** `column.contains(x)` evaluated on the stored text `t`. */
  predicate Contains(t: string, x: string) {
    Like(t, "%" + x + "%")
  }

  /** `x` holds no LIKE wildcard. */
  predicate Literal(x: string) {
    forall i | 0 <= i < |x| :: x[i] != '%' && x[i] != '_'
  }

  /** `a` and `b` are equal up to the case of ASCII letters. */
  predicate EqFolded(a: string, b: string) {
    |a| == |b| && forall i | 0 <= i < |a| :: SameFolded(a[i], b[i])
  }

  /** `x` occurs in `t` at position `i`, up to the case of ASCII letters. */
  predicate OccursAt(x: string, t: string, i: int) {
    0 <= i <= |t| - |x| && EqFolded(t[i..i + |x|], x)
  }

  /** `x` occurs in `t` at some position, up to the case of ASCII letters. */
  ghost predicate OccursFolded(x: string, t: string) {
    exists i :: OccursAt(x, t, i)
  }

  /** A lone `%` matches every text. */
  lemma {:induction false} LikeAnyText(t: string)
    ensures Like(t, "%")
    decreases |t|
  {
    if |t| > 0 {
      LikeAnyText(t[1..]);
    }
  }

  /** A wildcard-free pattern followed by `%` matches exactly the texts that
      start with it. */
  lemma {:induction false} LikePrefix(t: string, x: string)
    requires Literal(x)
    ensures Like(t, x + "%") <==> |x| <= |t| && EqFolded(t[..|x|], x)
    decreases |x|
  {
    if |x| == 0 {
      assert x + "%" == "%";
      LikeAnyText(t);
    } else {
      var p := x + "%";
      assert p[0] == x[0] && p[1..] == x[1..] + "%";
      assert Literal(x[1..]) by {
        forall i | 0 <= i < |x[1..]| ensures x[1..][i] != '%' && x[1..][i] != '_' {
          assert x[1..][i] == x[i + 1];
        }
      }
      assert x[0] != '%' && x[0] != '_';
      if |t| > 0 {
        LikePrefix(t[1..], x[1..]);
        if |x| <= |t| {
          assert t[1..][..|x| - 1] == t[..|x|][1..];
          if EqFolded(t[..|x|], x) {
            assert EqFolded(t[1..][..|x| - 1], x[1..]) by {
              forall i | 0 <= i < |x| - 1 ensures SameFolded(t[1..][..|x| - 1][i], x[1..][i]) {
                assert t[1..][..|x| - 1][i] == t[..|x|][i + 1];
              }
            }
          }
          if SameFolded(t[0], x[0]) && EqFolded(t[1..][..|x| - 1], x[1..]) {
            forall i | 0 <= i < |x| ensures SameFolded(t[..|x|][i], x[i]) {
              if i > 0 {
                assert t[..|x|][i] == t[1..][..|x| - 1][i - 1];
              }
            }
          }
        }
      }
    }
  }

  /** A leading `%` lets the rest of the pattern match any suffix of the text. */
  lemma {:induction false} LikeSkip(t: string, q: string)
    ensures Like(t, "%" + q) <==> exists i | 0 <= i <= |t| :: Like(t[i..], q)
    decreases |t|
  {
    var p := "%" + q;
    assert p[0] == '%' && p[1..] == q;
    assert t[0..] == t;
    if |t| > 0 {
      LikeSkip(t[1..], q);
      if exists i | 1 <= i <= |t| :: Like(t[i..], q) {
        var i :| 1 <= i <= |t| && Like(t[i..], q);
        assert t[1..][i - 1..] == t[i..];
      }
      if exists i | 0 <= i <= |t| - 1 :: Like(t[1..][i..], q) {
        var i :| 0 <= i <= |t| - 1 && Like(t[1..][i..], q);
        assert t[1..][i..] == t[i + 1..];
      }
    }
  }

  /** For a wildcard-free search text, `contains` is case-insensitive
      substring search. */
  lemma ContainsLiteral(t: string, x: string)
    requires Literal(x)
    ensures Contains(t, x) <==> OccursFolded(x, t)
  {
    assert "%" + x + "%" == "%" + (x + "%");
    LikeSkip(t, x + "%");
    if Contains(t, x) {
      var i :| 0 <= i <= |t| && Like(t[i..], x + "%");
      LikePrefix(t[i..], x);
      assert t[i..][..|x|] == t[i..i + |x|];
      assert OccursAt(x, t, i);
    }
    if OccursFolded(x, t) {
      var i :| OccursAt(x, t, i);
      LikePrefix(t[i..], x);
      assert t[i..][..|x|] == t[i..i + |x|];
    }
  }

  /** An empty search text matches every stored text. */
  lemma ContainsEmpty(t: string)
    ensures Contains(t, "")
  {
    assert "%" + "" + "%" == "%" + "%";
    LikeSkip(t, "%");
    LikeAnyText(t);
    assert t[0..] == t;
  }
}
