/**
 * `search_question` filters with `Question.question.ilike('%' + term + '%')`:
 * the SQL ILIKE operator, where `%` matches any run of characters, `_` any one
 * character, a backslash makes the next pattern character literal, and letters
 * compare without regard to case.
 */
module Search {
  import opened Wrappers
  import Records

  /** ASCII lower-casing, the case folding ILIKE applies to both sides. */
  function Lower(c: char): char
  {
    if 'A' <= c <= 'Z' then (c as int - 'A' as int + 'a' as int) as char else c
  }

  predicate SameLetter(a: char, b: char)
  {
    Lower(a) == Lower(b)
  }

  /** Whether the text `s` matches the ILIKE pattern `p` as a whole. */
  predicate Ilike(p: string, s: string)
    decreases |p| + |s|
  {
    if |p| == 0 then |s| == 0
    else if p[0] == '%' then Ilike(p[1..], s) || (|s| > 0 && Ilike(p, s[1..]))
    else if p[0] == '_' then |s| > 0 && Ilike(p[1..], s[1..])
    else if p[0] == '\\' then
      // a trailing escape character never occurs in the patterns built below
      |p| >= 2 && |s| > 0 && SameLetter(p[1], s[0]) && Ilike(p[2..], s[1..])
    else |s| > 0 && SameLetter(p[0], s[0]) && Ilike(p[1..], s[1..])
  }

  /** The text of `f'%{search_term}%'`; a missing term is formatted by Python as `None`. */
  function SearchPattern(term: Option<string>): (p: string)
    ensures |p| >= 2 && p[0] == '%' && p[|p| - 1] == '%'
    ensures term.Some? ==> p[1..|p| - 1] == term.value
    ensures term.None? ==> p == "%None%"
  {
    match term
    case None => "%None%"
    case Some(t) => "%" + t + "%"
  }

  /** A term free of the ILIKE wildcard and escape characters. */
  predicate IsLiteral(t: string)
  {
    forall i :: 0 <= i < |t| ==> t[i] != '%' && t[i] != '_' && t[i] != '\\'
  }

  /** `t` is, up to case, a prefix of `s`. */
  predicate PrefixIgnoringCase(t: string, s: string)
  {
    |t| <= |s| && forall i :: 0 <= i < |t| ==> SameLetter(t[i], s[i])
  }

  /** `t` occurs in `s` up to case. */
  predicate ContainsIgnoringCase(s: string, t: string)
  {
    exists k :: 0 <= k <= |s| && PrefixIgnoringCase(t, s[k..])
  }

  lemma {:induction false} PercentMatchesAll(s: string)
    ensures Ilike("%", s)
    decreases |s|
  {
    if |s| > 0 {
      PercentMatchesAll(s[1..]);
    }
  }

  /** A literal followed by `%` matches exactly the texts it prefixes. */
  lemma {:induction false} LiteralThenPercent(t: string, s: string)
    requires IsLiteral(t)
    ensures Ilike(t + "%", s) <==> PrefixIgnoringCase(t, s)
    decreases |t|
  {
    if |t| == 0 {
      assert t + "%" == "%";
      PercentMatchesAll(s);
    } else {
      var p := t + "%";
      assert p[0] == t[0];
      assert p[1..] == t[1..] + "%";
      assert IsLiteral(t[1..]);
      if |s| > 0 {
        LiteralThenPercent(t[1..], s[1..]);
        assert PrefixIgnoringCase(t, s) <==> SameLetter(t[0], s[0]) && PrefixIgnoringCase(t[1..], s[1..]);
      }
    }
  }

  /** A leading `%` lets the rest of the pattern match at any position. */
  lemma {:induction false} LeadingPercent(q: string, s: string)
    ensures Ilike("%" + q, s) <==> exists k :: 0 <= k <= |s| && Ilike(q, s[k..])
    decreases |s|
  {
    var p := "%" + q;
    assert p[1..] == q;
    assert s[0..] == s;
    if |s| > 0 {
      LeadingPercent(q, s[1..]);
      if Ilike(p, s[1..]) {
        var k :| 0 <= k <= |s[1..]| && Ilike(q, s[1..][k..]);
        assert s[1..][k..] == s[k + 1..];
      }
      if exists k :: 0 <= k <= |s| && Ilike(q, s[k..]) {
        var k :| 0 <= k <= |s| && Ilike(q, s[k..]);
        if k > 0 {
          assert s[1..][k - 1..] == s[k..];
        }
      }
    }
  }

  /** For a term without wildcards the ILIKE filter is case-insensitive substring search. */
  lemma SearchIsSubstring(t: string, s: string)
    requires IsLiteral(t)
    ensures Ilike(SearchPattern(Some(t)), s) <==> ContainsIgnoringCase(s, t)
  {
    var p := SearchPattern(Some(t));
    assert p == "%" + (t + "%");
    LeadingPercent(t + "%", s);
    forall k | 0 <= k <= |s|
      ensures Ilike(t + "%", s[k..]) <==> PrefixIgnoringCase(t, s[k..])
    {
      LiteralThenPercent(t, s[k..]);
    }
  }

  /** The rows `search_question` selects, in store order. */
  function Matching(qs: seq<Records.Question>, term: Option<string>): (r: seq<Records.Question>)
    ensures forall q :: q in r <==> q in qs && Ilike(SearchPattern(term), q.question)
    ensures forall q :: multiset(r)[q] == if Ilike(SearchPattern(term), q.question) then multiset(qs)[q] else 0
  {
    var keep := (q: Records.Question) => Ilike(SearchPattern(term), q.question);
    var r := Records.Filter(qs, keep);
    assert forall q :: q in r <==> q in qs && keep(q) by {
      forall q ensures q in r <==> q in qs && keep(q) {
        Records.FilterMembership(qs, keep, q);
      }
    }
    r
  }
}
