/** Keyword escaping and the meaning of the `ilike` patterns built from it.

    The search function escapes each keyword with
    `keyword.replace(/[%_]/g, '\\$&')` and asks for `%keyword%` with `ilike`.
    `LikeMatch` gives SQL `LIKE` its PostgreSQL meaning: `%` matches any run
    of characters, `_` any one character, and a backslash makes the next
    character literal; `ILikeMatch` compares after lower-casing both sides.

    The escape leaves the backslash itself alone, so a keyword holding a
    backslash is not searched for literally (`BackslashKeywordMissed`).
    `EscapeLike` is the escape that also doubles backslashes, and
    `ILikeSubstringPattern` proves that with it `%keyword%` means exactly
    "contains the keyword, ignoring case". The two escapes agree on every
    keyword without a backslash (`EscapeWildcardsWithoutBackslash`). */
module LikePattern {
  import opened JsText

  predicate IsWildcard(c: char) {
    c == '%' || c == '_'
  }

  /** The escape the search function applies: a backslash before every `%`
      and `_`, nothing else changed. */
  function EscapeWildcards(k: string): (e: string)
    ensures |e| >= |k|
    ensures forall i :: 0 <= i < |e| && IsWildcard(e[i]) ==> i > 0 && e[i - 1] == '\\'
  {
    if |k| == 0 then ""
    else
      var rest := EscapeWildcards(k[1..]);
      if IsWildcard(k[0]) then ['\\', k[0]] + rest else [k[0]] + rest
  }

  /** Removes the backslash in front of each `%` and `_`. */
  function UnescapeWildcards(e: string): string {
    if |e| == 0 then ""
    else if |e| >= 2 && e[0] == '\\' && IsWildcard(e[1]) then [e[1]] + UnescapeWildcards(e[2..])
    else [e[0]] + UnescapeWildcards(e[1..])
  }

  /** Removing the inserted backslashes gives back the keyword, so the escape
      loses nothing. */
  lemma {:induction false} UnescapeEscape(k: string)
    ensures UnescapeWildcards(EscapeWildcards(k)) == k
  {
    if |k| > 0 {
      var rest := EscapeWildcards(k[1..]);
      UnescapeEscape(k[1..]);
      var e := EscapeWildcards(k);
      if IsWildcard(k[0]) {
        assert e[2..] == rest;
      } else {
        assert e[1..] == rest;
        assert |rest| > 0 ==> !IsWildcard(rest[0]);
        assert |e| >= 2 ==> e[1] == rest[0];
      }
      assert k == [k[0]] + k[1..];
    }
  }

  /** SQL `LIKE` with backslash as the escape character. */
  function LikeMatch(p: string, t: string): bool
    decreases |p| + |t|
  {
    if |p| == 0 then |t| == 0
    else if p[0] == '%' then LikeMatch(p[1..], t) || (|t| > 0 && LikeMatch(p, t[1..]))
    else if p[0] == '_' then |t| > 0 && LikeMatch(p[1..], t[1..])
    else if p[0] == '\\' && |p| >= 2 then |t| > 0 && t[0] == p[1] && LikeMatch(p[2..], t[1..])
    else |t| > 0 && t[0] == p[0] && LikeMatch(p[1..], t[1..])
  }

  /** SQL `ILIKE`: `LIKE` after lower-casing pattern and text. */
  predicate ILikeMatch(p: string, t: string) {
    LikeMatch(Lower(p), Lower(t))
  }

  predicate IsLikeSpecial(c: char) {
    c == '%' || c == '_' || c == '\\'
  }

  /** The escape `%keyword%` needs: a backslash before every `%`, `_` and
      backslash. */
  function EscapeLike(k: string): string {
    if |k| == 0 then ""
    else
      var rest := EscapeLike(k[1..]);
      if IsLikeSpecial(k[0]) then ['\\', k[0]] + rest else [k[0]] + rest
  }

  lemma {:induction false} PercentMatchesAll(t: string)
    ensures LikeMatch("%", t)
  {
    if |t| > 0 {
      PercentMatchesAll(t[1..]);
    }
  }

  /** An escaped keyword at the head of a pattern matches exactly that
      keyword, literally. */
  lemma {:induction false} EscapedPrefixMatch(k: string, p: string, t: string)
    ensures LikeMatch(EscapeLike(k) + p, t) <==> (k <= t && LikeMatch(p, t[|k|..]))
    decreases |k|
  {
    if |k| > 0 {
      var rest := EscapeLike(k[1..]);
      var q := EscapeLike(k) + p;
      if IsLikeSpecial(k[0]) {
        assert q[0] == '\\' && q[1] == k[0] && q[2..] == rest + p;
      } else {
        assert q[0] == k[0] && q[1..] == rest + p;
      }
      if |t| > 0 {
        EscapedPrefixMatch(k[1..], p, t[1..]);
        if |k| <= |t| { assert t[1..][|k| - 1..] == t[|k|..]; }
        assert k <= t <==> (t[0] == k[0] && k[1..] <= t[1..]);
      }
    } else {
      assert EscapeLike(k) + p == p;
    }
  }

  /** `%keyword%` with the keyword escaped by `EscapeLike` matches exactly the
      texts that contain the keyword. */
  lemma {:induction false} SubstringPattern(k: string, t: string)
    ensures LikeMatch("%" + EscapeLike(k) + "%", t) <==> Contains(t, k)
  {
    var p := "%" + EscapeLike(k) + "%";
    assert p[0] == '%' && p[1..] == EscapeLike(k) + "%";
    EscapedPrefixMatch(k, "%", t);
    if k <= t {
      PercentMatchesAll(t[|k|..]);
    }
    if |t| > 0 {
      SubstringPattern(k, t[1..]);
    }
  }

  /** Lower-casing leaves `%`, `_` and the backslash alone and makes no new
      ones. */
  lemma LowerSpecial(c: char)
    ensures IsLikeSpecial(LowerChar(c)) <==> IsLikeSpecial(c)
    ensures IsLikeSpecial(c) ==> LowerChar(c) == c
  {
  }

  lemma LowerAppend(a: string, b: string)
    ensures Lower(a + b) == Lower(a) + Lower(b)
  {
    assert forall i :: 0 <= i < |a + b| ==> Lower(a + b)[i] == (Lower(a) + Lower(b))[i];
  }

  lemma {:induction false} LowerEscapeLike(k: string)
    ensures Lower(EscapeLike(k)) == EscapeLike(Lower(k))
  {
    if |k| > 0 {
      var c := k[0];
      var rest := EscapeLike(k[1..]);
      LowerEscapeLike(k[1..]);
      var lk := Lower(k);
      assert lk[0] == LowerChar(c) && lk[1..] == Lower(k[1..]);
      LowerSpecial(c);
      if IsLikeSpecial(c) {
        LowerAppend(['\\', c], rest);
        assert Lower(['\\', c]) == ['\\', c];
      } else {
        LowerAppend([c], rest);
        assert Lower([c]) == [LowerChar(c)];
      }
    }
  }

  /** The intended meaning of the keyword filter: with `EscapeLike`, the
      pattern `%keyword%` under `ilike` matches exactly the texts containing
      the keyword, ignoring case. */
  lemma ILikeSubstringPattern(k: string, t: string)
    ensures ILikeMatch("%" + EscapeLike(k) + "%", t) <==> ContainsIgnoringCase(t, k)
  {
    LowerEscapeLike(k);
    assert Lower("%" + EscapeLike(k) + "%") == "%" + Lower(EscapeLike(k)) + "%";
    SubstringPattern(Lower(k), Lower(t));
  }

  /** On keywords without a backslash the search function's escape is the
      correct one. */
  lemma {:induction false} EscapeWildcardsWithoutBackslash(k: string)
    requires '\\' !in k
    ensures EscapeWildcards(k) == EscapeLike(k)
  {
    if |k| > 0 {
      assert k[0] != '\\';
      assert '\\' !in k[1..] by {
        assert forall i :: 0 <= i < |k[1..]| ==> k[1..][i] == k[i + 1];
      }
      EscapeWildcardsWithoutBackslash(k[1..]);
    }
  }

  /** The keyword filter as written searches literally for every keyword
      without a backslash. */
  lemma KeywordPatternMatches(k: string, t: string)
    requires '\\' !in k
    ensures ILikeMatch("%" + EscapeWildcards(k) + "%", t) <==> ContainsIgnoringCase(t, k)
  {
    EscapeWildcardsWithoutBackslash(k);
    ILikeSubstringPattern(k, t);
  }

  /** The keyword `\` (one backslash) is found in the text `\`, but the
      pattern built from it, `%\%`, asks for a literal `%` instead. */
  lemma BackslashKeywordMissed()
    ensures ContainsIgnoringCase("\\", "\\")
    ensures !ILikeMatch("%" + EscapeWildcards("\\") + "%", "\\")
  {
    var p := "%" + EscapeWildcards("\\") + "%";
    assert EscapeWildcards("\\") == "\\";
    assert p == ['%', '\\', '%'];
    assert Lower(p) == p;
    assert Lower("\\") == "\\";
    assert "\\" <= "\\";
    assert !LikeMatch(p[1..], "\\");
    assert !LikeMatch(p[1..], "");
    assert !LikeMatch(p, ""[..]);
    assert ("\\")[1..] == "";
  }
}
