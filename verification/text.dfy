/**
 * String helpers the list model relies on: the binary (code-point) string
 * order that SQLite's ORDER BY and BETWEEN use on TEXT columns, QString's
 * whitespace trimming, and ASCII case-insensitive substring search (the
 * intended meaning of the `note LIKE %text%` filter).
 */
module Text {

  /** Strict lexicographic order by code point; a proper prefix comes first. */
  predicate Less(a: string, b: string)
    decreases |a|
  {
    if |a| == 0 then |b| > 0
    else |b| > 0 && (a[0] < b[0] || (a[0] == b[0] && Less(a[1..], b[1..])))
  }

  lemma {:induction false} LessIrreflexive(a: string)
    ensures !Less(a, a)
    decreases |a|
  {
    if |a| > 0 {
      LessIrreflexive(a[1..]);
    }
  }

  lemma {:induction false} LessTransitive(a: string, b: string, c: string)
    requires Less(a, b) && Less(b, c)
    ensures Less(a, c)
    decreases |a|
  {
    if |a| > 0 && a[0] == b[0] && b[0] == c[0] {
      LessTransitive(a[1..], b[1..], c[1..]);
    }
  }

  /** Any two different strings are ordered one way, and only one way. */
  lemma {:induction false} LessTotal(a: string, b: string)
    ensures a == b || Less(a, b) || Less(b, a)
    ensures !(Less(a, b) && Less(b, a))
    decreases |a|
  {
    if |a| > 0 && |b| > 0 && a[0] == b[0] {
      LessTotal(a[1..], b[1..]);
      if a[1..] == b[1..] {
        assert a == [a[0]] + a[1..] && b == [b[0]] + b[1..];
      }
    }
  }

  /**
   * For equal-length heads, the order of two concatenations is decided by
   * the heads first and by the tails only when the heads are equal.
   */
  lemma {:induction false} LessConcat(a1: string, a2: string, b1: string, b2: string)
    requires |a1| == |b1|
    ensures Less(a1 + a2, b1 + b2) <==> Less(a1, b1) || (a1 == b1 && Less(a2, b2))
    decreases |a1|
  {
    if |a1| == 0 {
      assert a1 + a2 == a2 && b1 + b2 == b2;
    } else {
      assert (a1 + a2)[0] == a1[0] && (b1 + b2)[0] == b1[0];
      assert (a1 + a2)[1..] == a1[1..] + a2;
      assert (b1 + b2)[1..] == b1[1..] + b2;
      LessConcat(a1[1..], a2, b1[1..], b2);
      if a1[0] == b1[0] && a1[1..] == b1[1..] {
        assert a1 == [a1[0]] + a1[1..] && b1 == [b1[0]] + b1[1..];
      }
      if a1 == b1 {
        assert a1[1..] == b1[1..];
      }
    }
  }

  /** QChar::isSpace: Unicode separators plus the controls TAB..CR and NEL. */
  predicate IsSpace(c: char) {
    c == ' ' || ('\t' <= c <= '\r') || c == '\U{85}' || c == '\U{A0}' || c == '\U{1680}'
    || ('\U{2000}' <= c <= '\U{200A}') || c == '\U{2028}' || c == '\U{2029}'
    || c == '\U{202F}' || c == '\U{205F}' || c == '\U{3000}'
  }

  predicate AllSpace(s: string) {
    forall k :: 0 <= k < |s| ==> IsSpace(s[k])
  }

  /** Drops leading whitespace. */
  function TrimStart(s: string): string {
    if |s| > 0 && IsSpace(s[0]) then TrimStart(s[1..]) else s
  }

  /** TrimStart removes a whitespace prefix and stops at the first other character. */
  lemma {:induction false} TrimStartSpec(s: string)
    ensures |TrimStart(s)| <= |s| && TrimStart(s) == s[|s| - |TrimStart(s)|..]
    ensures AllSpace(s[..|s| - |TrimStart(s)|])
    ensures TrimStart(s) == [] || !IsSpace(TrimStart(s)[0])
    decreases |s|
  {
    if |s| > 0 && IsSpace(s[0]) {
      TrimStartSpec(s[1..]);
      var r := TrimStart(s[1..]);
      assert s[1..][|s| - 1 - |r|..] == s[|s| - |r|..];
      forall k | 0 <= k < |s| - |r| ensures IsSpace(s[k]) {
        if k > 0 {
          assert s[k] == s[1..][..|s| - 1 - |r|][k - 1];
        }
      }
    }
  }

  /** Drops trailing whitespace. */
  function TrimEnd(s: string): string {
    if |s| > 0 && IsSpace(s[|s| - 1]) then TrimEnd(s[..|s| - 1]) else s
  }

  /** TrimEnd removes a whitespace suffix and stops at the last other character. */
  lemma {:induction false} TrimEndSpec(s: string)
    ensures |TrimEnd(s)| <= |s| && TrimEnd(s) == s[..|TrimEnd(s)|]
    ensures AllSpace(s[|TrimEnd(s)|..])
    ensures TrimEnd(s) == [] || !IsSpace(TrimEnd(s)[|TrimEnd(s)| - 1])
    decreases |s|
  {
    if |s| > 0 && IsSpace(s[|s| - 1]) {
      TrimEndSpec(s[..|s| - 1]);
      var r := TrimEnd(s[..|s| - 1]);
      assert s[..|s| - 1][..|r|] == s[..|r|];
      forall k | |r| <= k < |s| ensures IsSpace(s[k]) {
        if k < |s| - 1 {
          assert s[k] == s[..|s| - 1][|r|..][k - |r|];
        }
      }
    }
  }

  /** QString::trimmed: the result neither starts nor ends with whitespace. */
  function Trim(s: string): (r: string)
    ensures r == [] || (!IsSpace(r[0]) && !IsSpace(r[|r| - 1]))
  {
    TrimStartSpec(s);
    TrimEndSpec(TrimStart(s));
    TrimEnd(TrimStart(s))
  }

  /** Slices of a suffix are slices of the whole. */
  lemma SuffixSlices(s: string, t: string, i: nat, n: nat)
    requires i <= |s| && t == s[i..] && n <= |t|
    ensures t[..n] == s[i..i + n] && t[n..] == s[i + n..]
  {
  }

  /**
   * Trim keeps one contiguous piece of its input, starting where the
   * leading whitespace ends, and removes only whitespace on either side of
   * it.
   */
  lemma TrimIsInnerSlice(s: string)
    ensures |Trim(s)| <= |TrimStart(s)| <= |s|
    ensures var i := |s| - |TrimStart(s)|;
            i + |Trim(s)| <= |s| && Trim(s) == s[i..i + |Trim(s)|]
            && AllSpace(s[..i]) && AllSpace(s[i + |Trim(s)|..])
  {
    var t := TrimStart(s);
    TrimStartSpec(s);
    TrimEndSpec(t);
    SuffixSlices(s, t, |s| - |t|, |TrimEnd(t)|);
  }

  /** Trimming twice is the same as trimming once. */
  lemma TrimIdempotent(s: string)
    ensures Trim(Trim(s)) == Trim(s)
  {
    var r := Trim(s);
    if r != [] {
      assert TrimStart(r) == r;
      assert TrimEnd(r) == r;
    }
  }

  /** Two all-whitespace pieces make an all-whitespace text. */
  lemma AllSpaceJoin(s: string, i: nat)
    requires i <= |s| && AllSpace(s[..i]) && AllSpace(s[i..])
    ensures AllSpace(s)
  {
    forall k | 0 <= k < |s| ensures IsSpace(s[k]) {
      if k < i {
        assert s[k] == s[..i][k];
      } else {
        assert s[k] == s[i..][k - i];
      }
    }
  }

  /** A text trims to nothing exactly when every character of it is whitespace. */
  lemma TrimBlankIff(s: string)
    ensures Trim(s) == [] <==> AllSpace(s)
  {
    TrimIsInnerSlice(s);
    var i := |s| - |TrimStart(s)|;
    if Trim(s) == [] {
      AllSpaceJoin(s, i);
    } else {
      assert Trim(s)[0] == s[i];
    }
  }

  /** SQLite's LIKE folds only ASCII letters. */
  function FoldCase(c: char): (r: char)
    ensures 'A' <= c <= 'Z' ==> 'a' <= r <= 'z' && r as int == c as int + 32
    ensures !('A' <= c <= 'Z') ==> r == c
  {
    if 'A' <= c <= 'Z' then (c as int + 32) as char else c
  }

  predicate EqualFolded(a: char, b: char) {
    FoldCase(a) == FoldCase(b)
  }

  /** `needle` is a prefix of `hay`, ignoring ASCII case. */
  predicate PrefixFolded(needle: string, hay: string) {
    |needle| <= |hay| && forall k :: 0 <= k < |needle| ==> EqualFolded(needle[k], hay[k])
  }

  /** `needle` occurs in `hay`, ignoring ASCII case. */
  predicate ContainsFolded(hay: string, needle: string) {
    PrefixFolded(needle, hay) || (|hay| > 0 && ContainsFolded(hay[1..], needle))
  }

  /** ContainsFolded finds exactly the positions where `needle` matches. */
  lemma {:induction false} ContainsFoldedIff(hay: string, needle: string)
    ensures ContainsFolded(hay, needle) <==> exists i :: 0 <= i <= |hay| && PrefixFolded(needle, hay[i..])
  {
    assert hay[0..] == hay;
    if |hay| > 0 {
      ContainsFoldedIff(hay[1..], needle);
      if exists i :: 0 <= i <= |hay| && PrefixFolded(needle, hay[i..]) {
        var i :| 0 <= i <= |hay| && PrefixFolded(needle, hay[i..]);
        if i > 0 {
          assert hay[1..][i - 1..] == hay[i..];
        }
      }
      if exists i :: 0 <= i <= |hay[1..]| && PrefixFolded(needle, hay[1..][i..]) {
        var i :| 0 <= i <= |hay[1..]| && PrefixFolded(needle, hay[1..][i..]);
        assert hay[1..][i..] == hay[i + 1..];
        assert 0 <= i + 1 <= |hay| && PrefixFolded(needle, hay[i + 1..]);
      }
    }
  }
}
