/** Escaping a user's query for SQL LIKE, against a reference LIKE matcher. */
module LikePattern {

  /**
   LIKE with the default escape character: `%` matches any run of characters,
   `_` any one, and a backslash makes the next character literal. A pattern that
   ends in a lone backslash is an error in SQL and matches nothing here.
   */
  predicate Like(s: string, p: string)
    decreases |p|, |s|
  {
    if p == [] then s == []
    else if p[0] == '%' then Like(s, p[1..]) || (s != [] && Like(s[1..], p))
    else if p[0] == '_' then s != [] && Like(s[1..], p[1..])
    else if p[0] == '\\' then |p| > 1 && s != [] && s[0] == p[1] && Like(s[1..], p[2..])
    else s != [] && s[0] == p[0] && Like(s[1..], p[1..])
  }

  predicate Special(c: char) { c == '\\' || c == '%' || c == '_' }

  /** Puts a backslash before every character that LIKE treats specially. */
  function Escape(q: string): string {
    if q == [] then []
    else (if Special(q[0]) then ['\\', q[0]] else [q[0]]) + Escape(q[1..])
  }

  /** Before any rest of a pattern, an escaped query consumes exactly the query. */
  lemma {:induction false} EscapedPrefix(s: string, q: string, tail: string)
    ensures Like(s, Escape(q) + tail) <==> q <= s && Like(s[|q|..], tail)
    decreases |q|
  {
    if q == [] {
      assert Escape(q) + tail == tail;
      assert s[0..] == s;
    } else {
      var p := Escape(q) + tail;
      var rest := Escape(q[1..]) + tail;
      if Special(q[0]) {
        assert p == ['\\', q[0]] + rest;
        assert p[2..] == rest;
      } else {
        assert p == [q[0]] + rest;
        assert p[1..] == rest;
      }
      if s != [] && s[0] == q[0] {
        EscapedPrefix(s[1..], q[1..], tail);
        if |q| <= |s| { assert s[1..][|q| - 1..] == s[|q|..]; }
        assert q <= s <==> q[1..] <= s[1..];
      }
    }
  }

  /** A bare escaped query matches the query and nothing else. */
  lemma EscapedMatchesItself(s: string, q: string)
    ensures Like(s, Escape(q)) <==> s == q
  {
    EscapedPrefix(s, q, []);
    assert Escape(q) + [] == Escape(q);
    assert q <= s && s[|q|..] == [] ==> s == q;
    assert s == q ==> s[|q|..] == [];
  }

  ghost predicate Contains(s: string, q: string) {
    exists i :: 0 <= i <= |s| && q <= s[i..]
  }

  lemma PercentMatchesAll(s: string)
    ensures Like(s, "%")
  {
    if s == [] { assert "%"[1..] == []; } else { PercentMatchesAll(s[1..]); }
  }

  /** Between two percent signs an escaped query matches exactly the strings that contain it. */
  lemma {:induction false} ContainsPattern(s: string, q: string)
    ensures Like(s, "%" + Escape(q) + "%") <==> Contains(s, q)
    decreases |s|
  {
    var p := "%" + Escape(q) + "%";
    assert p[1..] == Escape(q) + "%";
    EscapedPrefix(s, q, "%");
    if q <= s {
      PercentMatchesAll(s[|q|..]);
      assert q <= s[0..];
    } else if s == [] {
      assert forall i :: 0 <= i <= |s| ==> s[i..] == s;
    } else {
      ContainsPattern(s[1..], q);
      forall i | 0 <= i <= |s| && q <= s[i..] ensures Contains(s[1..], q) {
        assert s[0..] == s;
        assert s[1..][i - 1..] == s[i..];
      }
      forall i | 0 <= i <= |s[1..]| && q <= s[1..][i..] ensures Contains(s, q) {
        assert s[1..][i..] == s[i + 1..];
      }
    }
  }

  /** Without the escaping, a query with a wildcard matches strings that do not contain it. */
  lemma UnescapedIsNotLiteral()
    ensures Like("xaby", "%" + "a_y" + "%") && !Contains("xaby", "a_y")
  {
    var p := "%" + "a_y" + "%";
    assert p == "%a_y%";
    assert Like("", "%") && "%a_y%"[1..] == "a_y%" && "a_y%"[1..] == "_y%" && "_y%"[1..] == "y%" && "y%"[1..] == "%";
    assert "xaby"[1..] == "aby" && "aby"[1..] == "by" && "by"[1..] == "y" && "y"[1..] == "";
    assert Like("y", "y%");
    assert Like("by", "_y%");
    assert Like("aby", "a_y%");
    assert forall i :: 0 <= i <= 4 && "a_y" <= "xaby"[i..] ==> "xaby"[i + 1] == '_';
  }
}
