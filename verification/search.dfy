/**
 * The list model's text search. The application trims the search text,
 * replaces every `%` with `\%` and wraps the result in `%...%` for a SQL
 * `LIKE` that has no ESCAPE clause (src/models/TransactionsModel.cpp:105,
 * 120-121). Without an ESCAPE clause the backslash is an ordinary
 * character, so a search for a literal `%` never matches (see
 * PercentSearchMissesLiteral). The intended meaning, an ASCII
 * case-insensitive substring test, is what SearchMatches states; an
 * escaped LIKE (ESCAPE '\' and `\`, `%`, `_` all escaped) meets it exactly
 * (EscapedSearchIsSubstring), and the application's own LIKE meets it for
 * every search text without `%` or `_` (AsWrittenMeetsIntentWithoutWildcards).
 */
module Search {
  import opened Text

  function CountChar(s: string, c: char): (n: nat)
    ensures n <= |s|
  {
    if s == [] then 0 else (if s[0] == c then 1 else 0) + CountChar(s[1..], c)
  }

  /** Puts a backslash in front of every `%`, as the search filter's escaping does. */
  function EscapePercent(s: string): (r: string)
    ensures |r| == |s| + CountChar(s, '%')
    ensures r == [] || r[0] != '%'
  {
    if s == [] then []
    else if s[0] == '%' then "\\%" + EscapePercent(s[1..])
    else [s[0]] + EscapePercent(s[1..])
  }

  /** Turns every `\%` back into `%`, scanning left to right. */
  function UnescapePercent(r: string): string
  {
    if r == [] then []
    else if |r| >= 2 && r[0] == '\\' && r[1] == '%' then "%" + UnescapePercent(r[2..])
    else [r[0]] + UnescapePercent(r[1..])
  }

  /** Escaping loses nothing: it is undone by UnescapePercent. */
  lemma {:induction false} EscapePercentRoundTrip(s: string)
    ensures UnescapePercent(EscapePercent(s)) == s
  {
    if s != [] {
      EscapePercentRoundTrip(s[1..]);
      var rest := EscapePercent(s[1..]);
      if s[0] == '%' {
        assert ("\\%" + rest)[2..] == rest;
      } else {
        assert ([s[0]] + rest)[1..] == rest;
        assert |[s[0]] + rest| >= 2 ==> ([s[0]] + rest)[1] != '%';
      }
    }
  }

  /** In the escaped text every `%` directly follows a backslash. */
  lemma {:induction false} EscapedPercentFollowsBackslash(s: string, k: nat)
    requires k < |EscapePercent(s)| && EscapePercent(s)[k] == '%'
    ensures k > 0 && EscapePercent(s)[k - 1] == '\\'
  {
    var rest := EscapePercent(s[1..]);
    if s[0] == '%' {
      if k > 1 {
        EscapedPercentFollowsBackslash(s[1..], k - 2);
      }
    } else {
      EscapedPercentFollowsBackslash(s[1..], k - 1);
    }
  }

  /** The `:search` value bound by the list model for a non-blank text. */
  function SearchPattern(text: string): (p: string)
    ensures |p| == |Trim(text)| + CountChar(Trim(text), '%') + 2
    ensures p[0] == '%' && p[|p| - 1] == '%'
  {
    "%" + EscapePercent(Trim(text)) + "%"
  }

  /**
   * SQLite's LIKE without an ESCAPE clause: `%` matches any run of
   * characters, `_` any one character, every other character itself up to
   * ASCII case.
   */
  predicate Like(v: string, p: string)
    decreases |p| + |v|
  {
    if p == [] then v == []
    else if p[0] == '%' then Like(v, p[1..]) || (|v| > 0 && Like(v[1..], p))
    else |v| > 0 && (p[0] == '_' || EqualFolded(v[0], p[0])) && Like(v[1..], p[1..])
  }

  /** Without ESCAPE a backslash in the pattern can only match a backslash. */
  lemma {:induction false} LikeBackslashNeedsBackslash(v: string, p: string)
    requires Like(v, p) && '\\' in p
    ensures '\\' in v
    decreases |p| + |v|
  {
    if p[0] == '%' {
      if Like(v, p[1..]) {
        LikeBackslashNeedsBackslash(v, p[1..]);
      } else {
        LikeBackslashNeedsBackslash(v[1..], p);
      }
    } else if p[0] == '\\' {
      assert FoldCase(v[0]) == '\\';
    } else {
      LikeBackslashNeedsBackslash(v[1..], p[1..]);
    }
  }

  /** The intended meaning of the text filter on one column value. */
  predicate SearchMatches(v: string, text: string) {
    ContainsFolded(v, Trim(text))
  }

  /** The search text "50%" is left alone by trimming. */
  lemma PercentTextIsTrimmed()
    ensures Trim("50%") == "50%"
  {
    var t := "50%";
    assert !IsSpace(t[0]) && !IsSpace(t[|t| - 1]);
    assert TrimStart(t) == t;
    assert TrimEnd(t) == t;
  }

  /**
   * The note "50% off" contains the search text "50%"; the text has a `%`
   * and the note has no backslash.
   */
  lemma NoteContainsPercentText()
    ensures SearchMatches("50% off", "50%")
    ensures '%' in Trim("50%") && '\\' !in "50% off"
  {
    PercentTextIsTrimmed();
    var t, v := "50%", "50% off";
    assert PrefixFolded(t, v) by {
      assert |t| == 3 && t[0] == v[0] && t[1] == v[1] && t[2] == v[2];
    }
    assert t[2] == '%';
    assert forall k :: 0 <= k < |v| ==> v[k] != '\\';
  }

  /** Escaping a text that has a `%` puts a backslash into it. */
  lemma {:induction false} EscapedPercentBringsBackslash(s: string)
    requires '%' in s
    ensures '\\' in EscapePercent(s)
  {
    if s[0] == '%' {
      assert EscapePercent(s)[0] == '\\';
    } else {
      assert s == [s[0]] + s[1..];
      EscapedPercentBringsBackslash(s[1..]);
      assert EscapePercent(s) == [s[0]] + EscapePercent(s[1..]);
    }
  }

  /** A value with no backslash never matches a pattern that has one. */
  lemma LikeMissesWithoutBackslash(v: string, p: string)
    requires '\\' in p && '\\' !in v
    ensures !Like(v, p)
  {
    if Like(v, p) {
      LikeBackslashNeedsBackslash(v, p);
      assert false;
    }
  }

  /**
   * A search text with a `%` in it never matches a value without a
   * backslash, even one that contains the text: the LIKE the application
   * builds demands the backslash its escaping inserted. The note "50% off"
   * and the text "50%" are such a pair (NoteContainsPercentText).
   */
  lemma PercentSearchMissesLiteral(v: string, text: string)
    requires '%' in Trim(text) && '\\' !in v
    ensures !Like(v, SearchPattern(text))
  {
    var e := EscapePercent(Trim(text));
    EscapedPercentBringsBackslash(Trim(text));
    var k :| 0 <= k < |e| && e[k] == '\\';
    assert SearchPattern(text)[k + 1] == '\\';
    LikeMissesWithoutBackslash(v, SearchPattern(text));
  }

  /** `t` holds neither of LIKE's wildcards, `%` and `_`. */
  predicate NoWildcards(t: string) {
    forall k :: 0 <= k < |t| ==> t[k] != '%' && t[k] != '_'
  }

  /** Escaping leaves a text without `%` unchanged. */
  lemma {:induction false} EscapePercentKeepsPlainText(s: string)
    requires '%' !in s
    ensures EscapePercent(s) == s
  {
    if s != [] {
      assert s[0] in s;
      EscapePercentKeepsPlainText(s[1..]);
      assert s == [s[0]] + s[1..];
    }
  }

  lemma {:induction false} LikePercentMatchesAll(v: string)
    ensures Like(v, "%")
    decreases |v|
  {
    assert "%"[1..] == [];
    if v != [] {
      LikePercentMatchesAll(v[1..]);
    }
  }

  /** Without ESCAPE, a wildcard-free text followed by `%` matches exactly the values it is a prefix of. */
  lemma {:induction false} LikePrefix(v: string, t: string)
    requires NoWildcards(t)
    ensures Like(v, t + "%") <==> PrefixFolded(t, v)
    decreases |t|
  {
    if t == [] {
      assert t + "%" == "%";
      LikePercentMatchesAll(v);
    } else {
      var p := t + "%";
      var rest := t[1..] + "%";
      assert p == [t[0]] + rest;
      assert p[1..] == rest;
      assert p[0] != '%' && p[0] != '_';
      assert NoWildcards(t[1..]) by {
        forall k | 0 <= k < |t[1..]| ensures t[1..][k] != '%' && t[1..][k] != '_' {
          assert t[1..][k] == t[k + 1];
        }
      }
      if |v| > 0 {
        LikePrefix(v[1..], t[1..]);
      }
      if PrefixFolded(t, v) {
        assert PrefixFolded(t[1..], v[1..]) by {
          forall k | 0 <= k < |t[1..]| ensures EqualFolded(t[1..][k], v[1..][k]) {
            assert EqualFolded(t[k + 1], v[k + 1]);
          }
        }
      }
      if |v| > 0 && EqualFolded(v[0], t[0]) && PrefixFolded(t[1..], v[1..]) {
        assert PrefixFolded(t, v) by {
          forall k | 0 <= k < |t| ensures EqualFolded(t[k], v[k]) {
            if k > 0 {
              assert EqualFolded(t[1..][k - 1], v[1..][k - 1]);
            }
          }
        }
      }
    }
  }

  /** Without ESCAPE, `%t%` for a wildcard-free `t` matches exactly the values containing `t`. */
  lemma {:induction false} LikeSubstring(v: string, t: string)
    requires NoWildcards(t)
    ensures Like(v, "%" + t + "%") <==> ContainsFolded(v, t)
    decreases |v|
  {
    var p := "%" + t + "%";
    assert p[1..] == t + "%";
    LikePrefix(v, t);
    if |v| > 0 {
      LikeSubstring(v[1..], t);
    }
  }

  /**
   * For a trimmed search text with neither `%` nor `_`, the LIKE the
   * application builds means exactly the intended substring test.
   */
  lemma AsWrittenMeetsIntentWithoutWildcards(v: string, text: string)
    requires NoWildcards(Trim(text))
    ensures Like(v, SearchPattern(text)) <==> SearchMatches(v, text)
  {
    assert '%' !in Trim(text);
    EscapePercentKeepsPlainText(Trim(text));
    LikeSubstring(v, Trim(text));
  }

  /** Characters that need a backslash under LIKE ... ESCAPE '\'. */
  predicate IsLikeSpecial(c: char) {
    c == '%' || c == '_' || c == '\\'
  }

  /** The escaping an `ESCAPE '\'` clause needs: `\`, `%` and `_` all escaped. */
  function EscapeLike(s: string): (r: string)
    ensures |r| == |s| + CountSpecial(s)
  {
    if s == [] then []
    else if IsLikeSpecial(s[0]) then ['\\', s[0]] + EscapeLike(s[1..])
    else [s[0]] + EscapeLike(s[1..])
  }

  function CountSpecial(s: string): (n: nat)
    ensures n <= |s|
  {
    if s == [] then 0 else (if IsLikeSpecial(s[0]) then 1 else 0) + CountSpecial(s[1..])
  }

  /** SQLite's LIKE with `ESCAPE '\'`: a backslash makes the next character literal. */
  predicate LikeEscaped(v: string, p: string)
    decreases |p| + |v|
  {
    if p == [] then v == []
    else if p[0] == '\\' then |p| >= 2 && |v| > 0 && EqualFolded(v[0], p[1]) && LikeEscaped(v[1..], p[2..])
    else if p[0] == '%' then LikeEscaped(v, p[1..]) || (|v| > 0 && LikeEscaped(v[1..], p))
    else |v| > 0 && (p[0] == '_' || EqualFolded(v[0], p[0])) && LikeEscaped(v[1..], p[1..])
  }

  /** The corrected search pattern. */
  function EscapedSearchPattern(text: string): string {
    "%" + EscapeLike(Trim(text)) + "%"
  }

  lemma {:induction false} LikeEscapedPercentMatchesAll(v: string)
    ensures LikeEscaped(v, "%")
    decreases |v|
  {
    assert "%"[1..] == [];
    if v != [] {
      LikeEscapedPercentMatchesAll(v[1..]);
    }
  }

  /** An escaped text followed by `%` matches exactly the values it is a prefix of. */
  lemma {:induction false} EscapedPrefix(v: string, t: string)
    ensures LikeEscaped(v, EscapeLike(t) + "%") <==> PrefixFolded(t, v)
    decreases |t|
  {
    if t == [] {
      assert EscapeLike(t) + "%" == "%";
      LikeEscapedPercentMatchesAll(v);
    } else {
      var p := EscapeLike(t) + "%";
      var rest := EscapeLike(t[1..]) + "%";
      if |v| > 0 {
        EscapedPrefix(v[1..], t[1..]);
      }
      if IsLikeSpecial(t[0]) {
        assert p == ['\\', t[0]] + rest;
        assert p[2..] == rest;
      } else {
        assert p == [t[0]] + rest;
        assert p[1..] == rest;
      }
      if PrefixFolded(t, v) {
        assert PrefixFolded(t[1..], v[1..]) by {
          forall k | 0 <= k < |t[1..]| ensures EqualFolded(t[1..][k], v[1..][k]) {
            assert EqualFolded(t[k + 1], v[k + 1]);
          }
        }
      }
      if |v| > 0 && EqualFolded(v[0], t[0]) && PrefixFolded(t[1..], v[1..]) {
        assert PrefixFolded(t, v) by {
          forall k | 0 <= k < |t| ensures EqualFolded(t[k], v[k]) {
            if k > 0 {
              assert EqualFolded(t[1..][k - 1], v[1..][k - 1]);
            }
          }
        }
      }
    }
  }

  /**
   * With ESCAPE '\' and full escaping, `%text%` matches exactly the values
   * that contain the text, ignoring ASCII case.
   */
  lemma {:induction false} EscapedSearchIsSubstring(v: string, t: string)
    ensures LikeEscaped(v, "%" + EscapeLike(t) + "%") <==> ContainsFolded(v, t)
    decreases |v|
  {
    var p := "%" + EscapeLike(t) + "%";
    assert p[1..] == EscapeLike(t) + "%";
    EscapedPrefix(v, t);
    if |v| > 0 {
      EscapedSearchIsSubstring(v[1..], t);
    }
  }

  /** The corrected pattern meets the intended search meaning on every value. */
  lemma EscapedSearchMeetsIntent(v: string, text: string)
    ensures LikeEscaped(v, EscapedSearchPattern(text)) <==> SearchMatches(v, text)
  {
    EscapedSearchIsSubstring(v, Trim(text));
  }
}
