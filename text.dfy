/**
 * Text comparison as the SQLite engine underneath the catalog performs it:
 * the BINARY collation used by ORDER BY and UNIQUE, and the LIKE operator
 * used by the free-text search filter.
 */
module Text {

  /**
   * Lexicographic order by code point. SQLite stores text as UTF-8 and the
   * BINARY collation compares the bytes, which orders strings exactly as
   * their code points do.
   */
  predicate StrLe(a: string, b: string)
    decreases |a|
  {
    if a == [] then true
    else if b == [] then false
    else if a[0] != b[0] then a[0] < b[0]
    else StrLe(a[1..], b[1..])
  }

  lemma {:induction false} StrLeTotal(a: string, b: string)
    ensures StrLe(a, b) || StrLe(b, a)
    decreases |a|
  {
    if a != [] && b != [] && a[0] == b[0] {
      StrLeTotal(a[1..], b[1..]);
    }
  }

  lemma {:induction false} StrLeTransitive(a: string, b: string, c: string)
    requires StrLe(a, b) && StrLe(b, c)
    ensures StrLe(a, c)
    decreases |a|
  {
    if a != [] && a[0] == b[0] && b[0] == c[0] {
      StrLeTransitive(a[1..], b[1..], c[1..]);
    }
  }

  lemma {:induction false} StrLeAntisymmetric(a: string, b: string)
    requires StrLe(a, b) && StrLe(b, a)
    ensures a == b
    decreases |a|
  {
    if a != [] {
      StrLeAntisymmetric(a[1..], b[1..]);
      assert a == [a[0]] + a[1..] && b == [b[0]] + b[1..];
    }
  }

  /** SQLite's LIKE folds case for the 26 ASCII letters only. */
  function AsciiLower(c: char): char
  {
    if 'A' <= c <= 'Z' then (c as int + 32) as char else c
  }

  /**
   * `text LIKE pattern` without an ESCAPE clause: `%` matches any run of
   * characters, `_` matches exactly one, and every other pattern character
   * matches the same character up to ASCII case.
   */
  predicate Like(pattern: string, text: string)
    decreases |pattern| + |text|
  {
    if pattern == [] then text == []
    else if pattern[0] == '%' then
      Like(pattern[1..], text) || (text != [] && Like(pattern, text[1..]))
    else
      && text != []
      && (pattern[0] == '_' || AsciiLower(pattern[0]) == AsciiLower(text[0]))
      && Like(pattern[1..], text[1..])
  }

  /** Neither LIKE wildcard occurs in `s`. */
  predicate NoWildcards(s: string)
  {
    forall i :: 0 <= i < |s| ==> s[i] != '%' && s[i] != '_'
  }

  predicate EqualIgnoringCase(a: string, b: string)
  {
    |a| == |b| && forall i :: 0 <= i < |a| ==> AsciiLower(a[i]) == AsciiLower(b[i])
  }

  /** `s` occurs in `text` at position `k`, ignoring ASCII case. */
  predicate OccursAt(text: string, s: string, k: nat)
  {
    k + |s| <= |text| && EqualIgnoringCase(text[k..k + |s|], s)
  }

  /** `s` occurs somewhere in `text`, ignoring ASCII case. */
  ghost predicate ContainsIgnoringCase(text: string, s: string)
  {
    exists k: nat :: OccursAt(text, s, k)
  }

  /** A lone `%` matches every text. */
  lemma {:induction false} PercentMatchesAll(text: string)
    ensures Like("%", text)
    decreases |text|
  {
    if text != [] {
      PercentMatchesAll(text[1..]);
    }
  }

  /** A wildcard-free `s` followed by `%` matches exactly the texts that start with `s`. */
  lemma {:induction false} PrefixLike(s: string, text: string)
    requires NoWildcards(s)
    ensures Like(s + "%", text) <==> |s| <= |text| && EqualIgnoringCase(text[..|s|], s)
    decreases |s|
  {
    var p := s + "%";
    if s == [] {
      assert p == "%";
      PercentMatchesAll(text);
      assert EqualIgnoringCase(text[..0], s);
    } else {
      assert p[0] == s[0] && p[1..] == s[1..] + "%";
      if text != [] {
        PrefixLike(s[1..], text[1..]);
        if |s| <= |text| {
          var a, b := text[..|s|], text[1..][..|s| - 1];
          assert a == [text[0]] + b;
          assert EqualIgnoringCase(a, s) <==>
                 AsciiLower(text[0]) == AsciiLower(s[0]) && EqualIgnoringCase(b, s[1..]) by {
            if EqualIgnoringCase(a, s) {
              forall i | 0 <= i < |b| ensures AsciiLower(b[i]) == AsciiLower(s[1..][i]) {
                assert b[i] == a[i + 1];
              }
              assert AsciiLower(a[0]) == AsciiLower(s[0]);
            }
          }
        }
      }
    }
  }

  /** A leading `%` lets the rest of the pattern match any suffix of the text. */
  lemma {:induction false} LeadingPercent(q: string, text: string)
    ensures Like("%" + q, text) <==> exists k :: 0 <= k <= |text| && Like(q, text[k..])
    decreases |text|
  {
    var p := "%" + q;
    assert p[0] == '%' && p[1..] == q;
    assert text[0..] == text;
    if text != [] {
      LeadingPercent(q, text[1..]);
      if Like(p, text[1..]) {
        var k :| 0 <= k <= |text| - 1 && Like(q, text[1..][k..]);
        assert text[1..][k..] == text[k + 1..];
      }
      if exists k :: 0 <= k <= |text| && Like(q, text[k..]) {
        var k :| 0 <= k <= |text| && Like(q, text[k..]);
        if k > 0 {
          assert text[1..][k - 1..] == text[k..];
        }
      }
    }
  }

  /**
   * The search filter's pattern `%s%`: for a search text without wildcards,
   * LIKE is exactly case-insensitive (ASCII) substring search.
   */
  lemma SearchPatternIsSubstring(s: string, text: string)
    requires NoWildcards(s)
    ensures Like("%" + s + "%", text) <==> ContainsIgnoringCase(text, s)
  {
    assert "%" + s + "%" == "%" + (s + "%");
    LeadingPercent(s + "%", text);
    if Like("%" + s + "%", text) {
      var k :| 0 <= k <= |text| && Like(s + "%", text[k..]);
      PrefixLike(s, text[k..]);
      assert text[k..][..|s|] == text[k..k + |s|];
      assert OccursAt(text, s, k);
    }
    if ContainsIgnoringCase(text, s) {
      var k: nat :| OccursAt(text, s, k);
      PrefixLike(s, text[k..]);
      assert text[k..][..|s|] == text[k..k + |s|];
    }
  }
}
