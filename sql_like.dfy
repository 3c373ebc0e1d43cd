/**
 * PostgreSQL's `LIKE` matching, as the repositories use it for `%term%`
 * searches: `%` matches any run of characters, `_` any single character,
 * `\` makes the character after it match only itself, and every other
 * character matches itself (case-sensitively).
 */
module SqlLike {
  import opened Text

  /**
   * `s LIKE p`. PostgreSQL refuses a pattern that ends in a lone `\`; here
   * such a pattern matches nothing (`Surrounding` never builds one).
   */
  function Matches(p: string, s: string): bool
    decreases |p| + |s|
  {
    if p == [] then s == []
    else if p[0] == '%' then Matches(p[1..], s) || (s != [] && Matches(p, s[1..]))
    else if p[0] == '\\' then |p| >= 2 && s != [] && p[1] == s[0] && Matches(p[2..], s[1..])
    else s != [] && (p[0] == '_' || p[0] == s[0]) && Matches(p[1..], s[1..])
  }

  /** The pattern `%term%` that the services build from a search term. */
  function Surrounding(term: string): string
  {
    "%" + term + "%"
  }

  /** A term without wildcards or escapes, which therefore matches only itself. */
  predicate Literal(term: string)
  {
    '%' !in term && '_' !in term && '\\' !in term
  }

  lemma {:induction false} PercentMatchesAnything(s: string)
    ensures Matches("%", s)
    decreases |s|
  {
    if s != [] {
      PercentMatchesAnything(s[1..]);
    }
  }

  /** `term%` matches exactly the strings that start with `term`. */
  lemma {:induction false} LiteralThenPercent(term: string, s: string)
    requires Literal(term)
    ensures Matches(term + "%", s) <==> (|term| <= |s| && s[..|term|] == term)
    decreases |term|
  {
    if term == [] {
      assert term + "%" == "%";
      PercentMatchesAnything(s);
    } else {
      var p := term + "%";
      assert p[0] == term[0] && p[1..] == term[1..] + "%";
      assert Literal(term[1..]) by {
        assert forall c :: c in term[1..] ==> c in term;
      }
      if s != [] {
        LiteralThenPercent(term[1..], s[1..]);
        if |term| <= |s| && s[..|term|] == term {
          assert s[1..][..|term[1..]|] == term[1..];
        }
        if s[0] == term[0] && |term[1..]| <= |s[1..]| && s[1..][..|term[1..]|] == term[1..] {
          assert s[..|term|] == [s[0]] + s[1..][..|term[1..]|];
        }
      }
    }
  }

  /** A leading `%` lets the rest of the pattern match any suffix. */
  lemma {:induction false} LeadingPercent(q: string, s: string)
    ensures Matches("%" + q, s) <==> exists i :: 0 <= i <= |s| && Matches(q, s[i..])
    decreases |s|
  {
    var p := "%" + q;
    assert p[0] == '%' && p[1..] == q;
    if s == [] {
      assert s[0..] == s;
    } else {
      LeadingPercent(q, s[1..]);
      if Matches(p, s) {
        if Matches(q, s) {
          assert s[0..] == s;
        } else {
          var i :| 0 <= i <= |s[1..]| && Matches(q, s[1..][i..]);
          assert s[1..][i..] == s[i + 1..];
        }
      } else {
        assert !Matches(q, s[0..]) by { assert s[0..] == s; }
        forall i | 1 <= i <= |s|
          ensures !Matches(q, s[i..])
        {
          assert s[1..][i - 1..] == s[i..];
        }
      }
    }
  }

  /** For a term without wildcards or escapes, `s LIKE '%term%'` is the substring test. */
  lemma SurroundingIsContains(term: string, s: string)
    requires Literal(term)
    ensures Matches(Surrounding(term), s) <==> Contains(s, term)
  {
    assert Surrounding(term) == "%" + (term + "%");
    LeadingPercent(term + "%", s);
    if Matches(Surrounding(term), s) {
      var i :| 0 <= i <= |s| && Matches(term + "%", s[i..]);
      LiteralThenPercent(term, s[i..]);
      assert s[i..][..|term|] == s[i..i + |term|];
      assert OccursAt(s, term, i);
    }
    if Contains(s, term) {
      var i :| 0 <= i <= |s| - |term| && OccursAt(s, term, i);
      LiteralThenPercent(term, s[i..]);
      assert s[i..][..|term|] == s[i..i + |term|];
    }
  }

  /**
   * A backslash in the search term escapes the character after it, so the
   * term `a\b` finds the title `ab`, which does not contain it.
   */
  lemma EscapeInTerm()
    ensures Matches(Surrounding("a\\b"), "ab")
    ensures !Contains("ab", "a\\b")
  {
    var p := Surrounding("a\\b");
    assert p == "%a\\b%";
    assert p[1..] == "a\\b%" && p[1..][1..] == "\\b%" && p[1..][1..][2..] == "%";
    assert "ab"[1..] == "b" && "b"[1..] == "";
    assert Matches("%", "");
    assert Matches(p[1..][1..], "b");
    assert Matches(p[1..], "ab");
  }
}
