/**
 * The Explore page's search: the sanitiser that escapes the user's text before
 * it is spliced into a pattern filter, the blank-query guard, and the filter
 * string handed to the backend's `or` query.
 */
module Explore {
  import opened Wrappers
  import opened JsString

  /** The five characters the sanitiser rewrites. */
  predicate IsSpecial(c: char) {
    c == '\\' || c == '%' || c == '_' || c == '\'' || c == '"'
  }

  /** The number of characters of `s` the sanitiser rewrites. */
  function CountSpecial(s: string): nat {
    if s == [] then 0 else (if IsSpecial(s[0]) then 1 else 0) + CountSpecial(s[1..])
  }

  /** The chain of five global replacements, in the order the code applies
      them: backslash first, then percent, underscore, single quote and double
      quote. */
  function EscapeChain(s: string): (r: string)
    ensures |r| >= |s|
  {
    var s1 := ReplaceAll(s, '\\', "\\\\");
    var s2 := ReplaceAll(s1, '%', "\\%");
    var s3 := ReplaceAll(s2, '_', "\\_");
    var s4 := ReplaceAll(s3, '\'', "''");
    ReplaceAll(s4, '"', "\\\"")
  }

  /** `sanitizeSearchInput`: the replacement chain, then `trim`. */
  function SanitizeSearchInput(input: string): (r: string)
    ensures NoSurroundingWhitespace(r)
  {
    Trim(EscapeChain(input))
  }

  /** What one input character stands as in the escaped text: a backslash is
      doubled, `%`, `_` and `"` get a backslash in front, a single quote is
      doubled, every other character is kept. */
  function EscapeChar(c: char): (r: string)
    ensures c == '\'' ==> r == "''"
    ensures IsSpecial(c) && c != '\'' ==> r == ['\\', c]
    ensures !IsSpecial(c) ==> r == [c]
  {
    if c == '\\' then "\\\\"
    else if c == '%' then "\\%"
    else if c == '_' then "\\_"
    else if c == '\'' then "''"
    else if c == '"' then "\\\""
    else [c]
  }

  /** The escaping as a single left-to-right pass over the input, each
      character replaced by its escape: the reference the chain is held to. */
  function EscapeEach(s: string): (r: string)
    ensures |r| == |s| + CountSpecial(s)
  {
    if s == [] then [] else EscapeChar(s[0]) + EscapeEach(s[1..])
  }

  lemma {:induction false} EscapeEachAppend(a: string, b: string)
    ensures EscapeEach(a + b) == EscapeEach(a) + EscapeEach(b)
  {
    if a == [] {
      assert a + b == b;
    } else {
      assert (a + b)[0] == a[0];
      assert (a + b)[1..] == a[1..] + b;
      EscapeEachAppend(a[1..], b);
    }
  }

  lemma EscapeChainAppend(a: string, b: string)
    ensures EscapeChain(a + b) == EscapeChain(a) + EscapeChain(b)
  {
    var a1, b1 := ReplaceAll(a, '\\', "\\\\"), ReplaceAll(b, '\\', "\\\\");
    ReplaceAllAppend(a, b, '\\', "\\\\");
    var a2, b2 := ReplaceAll(a1, '%', "\\%"), ReplaceAll(b1, '%', "\\%");
    ReplaceAllAppend(a1, b1, '%', "\\%");
    var a3, b3 := ReplaceAll(a2, '_', "\\_"), ReplaceAll(b2, '_', "\\_");
    ReplaceAllAppend(a2, b2, '_', "\\_");
    var a4, b4 := ReplaceAll(a3, '\'', "''"), ReplaceAll(b3, '\'', "''");
    ReplaceAllAppend(a3, b3, '\'', "''");
    ReplaceAllAppend(a4, b4, '"', "\\\"");
  }

  lemma ReplaceAllOne(x: char, c: char, rep: string)
    ensures ReplaceAll([x], c, rep) == if x == c then rep else [x]
  {
    assert [x][1..] == [];
  }

  /** The four rewrites after the backslash one leave a text alone that holds
      none of their characters. */
  lemma LaterRewritesAbsent(t: string)
    requires '%' !in t && '_' !in t && '\'' !in t && '"' !in t
    ensures ReplaceAll(ReplaceAll(ReplaceAll(ReplaceAll(t, '%', "\\%"), '_', "\\_"), '\'', "''"), '"', "\\\"") == t
  {
    ReplaceAllAbsent(t, '%', "\\%");
    ReplaceAllAbsent(t, '_', "\\_");
    ReplaceAllAbsent(t, '\'', "''");
    ReplaceAllAbsent(t, '"', "\\\"");
  }

  /** On one character the chain produces exactly that character's escape: no
      rewrite touches what an earlier one inserted. */
  lemma EscapeChainChar(c: char)
    ensures EscapeChain([c]) == EscapeChar(c)
  {
    var s1 := ReplaceAll([c], '\\', "\\\\");
    ReplaceAllOne(c, '\\', "\\\\");
    if c == '\\' {
      LaterRewritesAbsent(s1);
    } else {
      var s2 := ReplaceAll(s1, '%', "\\%");
      ReplaceAllOne(c, '%', "\\%");
      if c == '%' {
        ReplaceAllAbsent(s2, '_', "\\_");
        ReplaceAllAbsent(s2, '\'', "''");
        ReplaceAllAbsent(s2, '"', "\\\"");
      } else {
        var s3 := ReplaceAll(s2, '_', "\\_");
        ReplaceAllOne(c, '_', "\\_");
        if c == '_' {
          ReplaceAllAbsent(s3, '\'', "''");
          ReplaceAllAbsent(s3, '"', "\\\"");
        } else {
          var s4 := ReplaceAll(s3, '\'', "''");
          ReplaceAllOne(c, '\'', "''");
          if c == '\'' {
            ReplaceAllAbsent(s4, '"', "\\\"");
          } else {
            ReplaceAllOne(c, '"', "\\\"");
          }
        }
      }
    }
  }

  /** The replacement chain is the single-pass escape: because backslashes are
      doubled first, the backslashes the later rewrites insert are never
      doubled again. */
  lemma {:induction false} EscapeChainIsSinglePass(s: string)
    ensures EscapeChain(s) == EscapeEach(s)
  {
    if s != [] {
      assert s == [s[0]] + s[1..];
      EscapeChainAppend([s[0]], s[1..]);
      EscapeChainChar(s[0]);
      EscapeChainIsSinglePass(s[1..]);
    }
  }

  /** Before the trim the output is one character longer per special input
      character. */
  lemma EscapeChainLength(s: string)
    ensures |EscapeChain(s)| == |s| + CountSpecial(s)
  {
    EscapeChainIsSinglePass(s);
  }

  /** Had the backslash rewrite run last, it would double the backslash the
      percent rewrite inserted: the order of the chain matters. */
  lemma BackslashFirstMatters()
    ensures ReplaceAll(ReplaceAll("%", '%', "\\%"), '\\', "\\\\") == "\\\\%"
    ensures EscapeChain("%") == "\\%"
  {
    EscapeChainChar('%');
    assert ReplaceAll("%", '%', "\\%") == "\\%";
    assert ReplaceAll("\\%", '\\', "\\\\") == "\\\\" + ReplaceAll("%", '\\', "\\\\");
  }

  /** Reads the escape sequences the sanitiser writes back to the characters
      they stand for: a backslash makes the next character literal, and a pair
      of single quotes stands for one. */
  function Unescape(s: string): string
    decreases |s|
  {
    if |s| >= 2 && s[0] == '\\' then [s[1]] + Unescape(s[2..])
    else if |s| >= 2 && s[0] == '\'' && s[1] == '\'' then ['\''] + Unescape(s[2..])
    else if s == [] then []
    else [s[0]] + Unescape(s[1..])
  }

  /** Escaping loses nothing: every escaped text decodes to its input. */
  lemma {:induction false} UnescapeEscapeEach(s: string)
    ensures Unescape(EscapeEach(s)) == s
  {
    if s != [] {
      var c, t := s[0], EscapeEach(s[1..]);
      var e := EscapeChar(c);
      UnescapeEscapeEach(s[1..]);
      assert EscapeEach(s) == e + t;
      if IsSpecial(c) {
        assert (e + t)[0] == e[0] && (e + t)[1] == c;
        assert (e + t)[2..] == t;
      } else {
        assert (e + t)[0] == c;
        assert (e + t)[1..] == t;
      }
      assert s == [c] + s[1..];
    }
  }

  /** Whitespace is never escaped. */
  lemma WhitespaceNotSpecial(c: char)
    requires IsWhitespace(c)
    ensures EscapeChar(c) == [c]
  {
  }

  lemma {:induction false} EscapeEachFirstLast(s: string)
    requires s != []
    ensures EscapeEach(s)[0] == s[0] || EscapeEach(s)[0] == '\\'
    ensures EscapeEach(s)[|EscapeEach(s)| - 1] == s[|s| - 1]
  {
    var n := |s|;
    assert s == s[..n - 1] + [s[n - 1]];
    EscapeEachAppend(s[..n - 1], [s[n - 1]]);
    assert EscapeEach([s[n - 1]]) == EscapeChar(s[n - 1]);
  }

  lemma TrimStartEscapeWhitespace(s: string)
    requires s != [] && IsWhitespace(s[0])
    ensures TrimStart(EscapeEach(s)) == TrimStart(EscapeEach(s[1..]))
  {
    WhitespaceNotSpecial(s[0]);
    var e := EscapeEach(s);
    assert e == [s[0]] + EscapeEach(s[1..]);
    assert e[1..] == EscapeEach(s[1..]);
  }

  lemma TrimStartEscapeOther(s: string)
    requires s != [] && !IsWhitespace(s[0])
    ensures TrimStart(EscapeEach(s)) == EscapeEach(s)
  {
    var e := EscapeEach(s);
    EscapeEachFirstLast(s);
    assert e[0] == s[0] || e[0] == '\\';
    assert !IsWhitespace(e[0]);
    TrimStartNoLead(e);
  }

  lemma {:induction false} TrimStartEscape(s: string)
    ensures TrimStart(EscapeEach(s)) == EscapeEach(TrimStart(s))
  {
    if s != [] {
      if IsWhitespace(s[0]) {
        TrimStartEscapeWhitespace(s);
        TrimStartEscape(s[1..]);
      } else {
        TrimStartEscapeOther(s);
      }
    }
  }

  lemma TrimEndEscapeWhitespace(p: string, c: char)
    requires IsWhitespace(c)
    ensures TrimEnd(EscapeEach(p + [c])) == TrimEnd(EscapeEach(p))
    ensures TrimEnd(p + [c]) == TrimEnd(p)
  {
    EscapeEachAppend(p, [c]);
    WhitespaceNotSpecial(c);
    assert EscapeEach([c]) == [c];
    TrimEndSnoc(EscapeEach(p), c);
    TrimEndSnoc(p, c);
  }

  lemma TrimEndEscapeOther(s: string)
    requires s != [] && !IsWhitespace(s[|s| - 1])
    ensures TrimEnd(EscapeEach(s)) == EscapeEach(s)
    ensures TrimEnd(s) == s
  {
    var e := EscapeEach(s);
    EscapeEachFirstLast(s);
    TrimEndNoTrail(e);
    TrimEndNoTrail(s);
  }

  lemma {:induction false} TrimEndEscape(s: string)
    ensures TrimEnd(EscapeEach(s)) == EscapeEach(TrimEnd(s))
    decreases |s|
  {
    if s != [] {
      var p, c := s[..|s| - 1], s[|s| - 1];
      if IsWhitespace(c) {
        assert s == p + [c];
        TrimEndEscapeWhitespace(p, c);
        TrimEndEscape(p);
      } else {
        TrimEndEscapeOther(s);
      }
    }
  }

  /** The sanitiser escapes exactly the trimmed query: trimming before or after
      escaping comes to the same, since whitespace is never escaped and no
      escape begins or ends with whitespace. */
  lemma SanitizeIsEscapedTrim(input: string)
    ensures SanitizeSearchInput(input) == EscapeEach(Trim(input))
  {
    EscapeChainIsSinglePass(input);
    TrimStartEscape(input);
    TrimEndEscape(TrimStart(input));
  }

  /** The sanitised query stands for the user's text with its surrounding
      whitespace removed, and for nothing else. */
  lemma SanitizeRoundTrip(input: string)
    ensures Unescape(SanitizeSearchInput(input)) == Trim(input)
  {
    SanitizeIsEscapedTrim(input);
    UnescapeEscapeEach(Trim(input));
  }

  lemma {:induction false} EscapeEachNoSpecial(s: string)
    requires CountSpecial(s) == 0
    ensures EscapeEach(s) == s
  {
    if s != [] {
      EscapeEachNoSpecial(s[1..]);
      assert s == [s[0]] + s[1..];
    }
  }

  /** A text without surrounding whitespace is only escaped. */
  lemma SanitizeUntrimmed(s: string)
    requires NoSurroundingWhitespace(s)
    ensures SanitizeSearchInput(s) == EscapeEach(s)
  {
    SanitizeIsEscapedTrim(s);
    TrimUnchanged(s);
  }

  /** A text already free of surrounding whitespace is left unchanged exactly
      when it holds none of the five special characters. */
  lemma SanitizeFixedPoint(s: string)
    requires NoSurroundingWhitespace(s)
    ensures SanitizeSearchInput(s) == s <==> CountSpecial(s) == 0
  {
    SanitizeUntrimmed(s);
    if CountSpecial(s) == 0 {
      EscapeEachNoSpecial(s);
    }
  }

  /** Sanitising is not idempotent: a second pass changes the output exactly
      when the first left a special character in it (a doubled backslash, for
      a start). */
  lemma SanitizeTwice(s: string)
    ensures var once := SanitizeSearchInput(s);
            SanitizeSearchInput(once) == once <==> CountSpecial(once) == 0
  {
    SanitizeFixedPoint(SanitizeSearchInput(s));
  }

  /** The smallest witness: one backslash becomes two, and two become four. */
  lemma SanitizeBackslashTwice(one: string, two: string)
    requires one == "\\" && two == one + one
    ensures SanitizeSearchInput(one) == two
    ensures SanitizeSearchInput(two) == two + two
  {
    assert EscapeEach(one) == EscapeChar('\\') + EscapeEach([]);
    assert EscapeEach(one) == two;
    EscapeEachAppend(one, one);
    assert EscapeEach(two) == two + two;
    SanitizeUntrimmed(one);
    SanitizeUntrimmed(two);
  }

  /** The `or` filter `handleSearch` sends for a (non-blank) query: the
      sanitised text as a substring pattern on the title or the description. */
  function OrFilter(q: string): (r: string)
    ensures |r| == 2 * |q| + 35
    ensures r[13..13 + |q|] == q && r[|r| - 1 - |q|..|r| - 1] == q
  {
    "title.ilike.%" + q + "%,description.ilike.%" + q + "%"
  }

  /** `handleSearch`'s decision: no search at all for a query that is empty
      after trimming, otherwise the filter over the sanitised query. */
  function SearchFilter(searchQuery: string): (r: Option<string>)
    ensures r.None? <==> AllWhitespace(searchQuery)
    ensures r.Some? ==> r.value == OrFilter(EscapeEach(Trim(searchQuery)))
  {
    TrimEmpty(searchQuery);
    SanitizeIsEscapedTrim(searchQuery);
    if Trim(searchQuery) == [] then None
    else Some(OrFilter(SanitizeSearchInput(searchQuery)))
  }

  lemma EscapeExampleHead(a: string)
    requires a == "50%"
    ensures EscapeEach(a) == "50\\%"
  {
    assert a == "50" + "%";
    EscapeEachNoSpecial("50");
    EscapeEachAppend("50", "%");
  }

  lemma EscapeExampleTail(c: string)
    requires c == "_test"
    ensures EscapeEach(c) == "\\_test"
  {
    assert c == "_" + "test";
    EscapeEachNoSpecial("test");
    EscapeEachAppend("_", "test");
  }

  lemma EscapeExample(a: string, b: string, c: string)
    requires a == "50%" && b == " off" && c == "_test"
    ensures EscapeEach(a + b + c) == "50\\%" + b + "\\_test"
  {
    EscapeExampleHead(a);
    EscapeEachNoSpecial(" off");
    EscapeExampleTail(c);
    EscapeEachAppend(a, b);
    EscapeEachAppend(a + b, c);
  }

  /** The query `50% off_test`: the percent sign and the underscore are
      escaped, and the inner space is kept. */
  lemma SanitizeExample(a: string, b: string, c: string)
    requires a == "50%" && b == " off" && c == "_test"
    ensures SanitizeSearchInput(a + b + c) == "50\\%" + b + "\\_test"
  {
    EscapeExample(a, b, c);
    var q := a + b + c;
    assert q[0] == '5' && q[|q| - 1] == 't';
    SanitizeUntrimmed(q);
  }
}
