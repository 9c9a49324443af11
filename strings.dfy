/**
 * The string helpers the lookup client borrows from commons-lang and commons-io:
 * lower-casing, `StringUtils.equalsIgnoreCase`, `String.startsWith` and
 * `FilenameUtils.wildcardMatch` with `IOCase.INSENSITIVE`, whose tokenizer and
 * backtracking scan are modelled by what they accept.
 */
module AtlasStrings {

  /** Lower-case one character (ASCII letters only). */
  function LowerChar(c: char): char
  {
    if 'A' <= c <= 'Z' then (c as int + 32) as char else c
  }

  /** `String.toLowerCase`, restricted to ASCII letters. */
  function Lower(s: string): string
  {
    seq(|s|, i requires 0 <= i < |s| => LowerChar(s[i]))
  }

  /** No upper-case ASCII letter occurs in `s`. */
  predicate IsLowerCase(s: string)
  {
    forall i :: 0 <= i < |s| ==> !('A' <= s[i] <= 'Z')
  }

  lemma LowerIsLowerCase(s: string)
    ensures IsLowerCase(Lower(s))
    ensures Lower(Lower(s)) == Lower(s)
  {
  }

  /** `StringUtils.equalsIgnoreCase` on two non-null strings. */
  predicate EqualsIgnoreCase(a: string, b: string)
  {
    Lower(a) == Lower(b)
  }

  /** `String.startsWith`. */
  predicate StartsWith(s: string, prefix: string)
  {
    |prefix| <= |s| && s[..|prefix|] == prefix
  }

  /** The pattern holds neither `*` nor `?`. */
  predicate NoWildcards(p: string)
  {
    forall i :: 0 <= i < |p| ==> p[i] != '*' && p[i] != '?'
  }

  /** One token of a `wildcardMatch` pattern: `?`, a run of `*`, or literal text. */
  datatype Token = AnyChar | AnyRun | Text(text: string)

  /** The literal text collected so far, as at most one token. */
  function Flush(buf: string): seq<Token>
  {
    if |buf| == 0 then [] else [Text(buf)]
  }

  /**
   * `FilenameUtils.splitOnTokens` on a pattern holding a wildcard: literal runs
   * become `Text` tokens, each `?` an `AnyChar`, and a run of `*` one `AnyRun`.
   * `afterStar` says whether the previous character was `*`; `buf` is the
   * literal text not yet emitted.
   */
  function Scan(p: string, afterStar: bool, buf: string): seq<Token>
    decreases |p|
  {
    if |p| == 0 then Flush(buf)
    else if p[0] == '?' then Flush(buf) + [AnyChar] + Scan(p[1..], false, [])
    else if p[0] == '*' then Flush(buf) + (if afterStar then [] else [AnyRun]) + Scan(p[1..], true, [])
    else Scan(p[1..], false, buf + [p[0]])
  }

  /** `splitOnTokens`: a pattern without wildcards is a single text token, even when empty. */
  function Tokens(p: string): seq<Token>
  {
    if NoWildcards(p) then [Text(p)] else Scan(p, false, [])
  }

  /** `s` occurs in `name` at position `at`. */
  predicate TextAt(name: string, at: nat, s: string)
  {
    at + |s| <= |name| && name[at..at + |s|] == s
  }

  /**
   * The outcome of the backtracking scan of `wildcardMatch` over `name`, from
   * text index `t`, with `anyChars` set when the previous token was a `*`.
   * `?` consumes one character and clears `anyChars`; a `*` sets it, and as the
   * last token it consumes the rest of the name; a text token must occur at `t`,
   * or, after a `*`, at some later position (the library's backtracking stack
   * tries every later occurrence). The name matches when the tokens run out at
   * its end.
   */
  predicate Matches(toks: seq<Token>, name: string, t: nat, anyChars: bool)
    decreases |toks|
  {
    if |toks| == 0 then t == |name|
    else match toks[0]
      case AnyChar => t + 1 <= |name| && Matches(toks[1..], name, t + 1, false)
      case AnyRun => |toks| == 1 || Matches(toks[1..], name, t, true)
      case Text(s) =>
        if anyChars then exists o: nat :: t <= o <= |name| && TextAt(name, o, s) && Matches(toks[1..], name, o + |s|, false)
        else TextAt(name, t, s) && Matches(toks[1..], name, t + |s|, false)
  }

  /**
   * `FilenameUtils.wildcardMatch(name, pattern, IOCase.INSENSITIVE)`. Lower-casing
   * both sides first leaves the tokens in place and turns the case-insensitive
   * region comparisons into plain ones.
   */
  predicate WildcardMatch(name: string, pattern: string)
  {
    Matches(Tokens(Lower(pattern)), Lower(name), 0, false)
  }

  /** The pattern `*` matches every name. */
  lemma StarMatchesAll(name: string)
    ensures WildcardMatch(name, "*")
  {
    assert Lower("*") == "*";
    assert !NoWildcards("*") by { assert "*"[0] == '*'; }
    assert Scan("*", false, []) == [AnyRun] by {
      assert Scan("*"[1..], true, []) == [];
    }
  }

  /** A pattern without wildcards matches exactly the names equal to it ignoring case. */
  lemma LiteralMatch(pattern: string, name: string)
    requires NoWildcards(pattern)
    ensures WildcardMatch(name, pattern) <==> Lower(name) == Lower(pattern)
  {
    LowerKeepsNoWildcards(pattern);
    var p, n := Lower(pattern), Lower(name);
    assert Tokens(p) == [Text(p)];
    assert Matches([Text(p)], n, 0, false) <==> TextAt(n, 0, p) && |p| == |n|;
    if TextAt(n, 0, p) && |p| == |n| {
      assert n == n[0..|p|];
    }
  }

  /**
   * A `?` right after a `*` clears the pending `*`: `*?` matches exactly the
   * one-character names, and so does not even match itself.
   */
  lemma StarQuestionMatchesOneChar(name: string)
    ensures WildcardMatch(name, "*?") <==> |name| == 1
  {
    assert Lower("*?") == "*?";
    assert !NoWildcards("*?") by { assert "*?"[0] == '*'; }
    assert Scan("*?", false, []) == [AnyRun, AnyChar] by {
      assert Scan("*?"[1..], true, []) == [AnyChar] by {
        assert Scan("*?"[1..][1..], false, []) == [];
      }
    }
    var toks := [AnyRun, AnyChar];
    assert toks[1..] == [AnyChar] && toks[1..][1..] == [];
  }

  /** A literal run inside a pattern only extends the pending text. */
  lemma {:induction false} ScanLiteralRun(q: string, rest: string, afterStar: bool, buf: string)
    requires NoWildcards(q) && |q| > 0
    ensures Scan(q + rest, afterStar, buf) == Scan(rest, false, buf + q)
    decreases |q|
  {
    assert (q + rest)[1..] == q[1..] + rest;
    if |q| == 1 {
      assert q[1..] + rest == rest && buf + [q[0]] == buf + q;
    } else {
      ScanLiteralRun(q[1..], rest, false, buf + [q[0]]);
      assert buf + [q[0]] + q[1..] == buf + q;
    }
  }

  /** `prefix*` with a non-empty literal prefix matches exactly the names that start with it, ignoring case. */
  lemma PrefixStarMatch(prefix: string, name: string)
    requires NoWildcards(prefix) && |prefix| > 0
    ensures WildcardMatch(name, prefix + "*") <==> StartsWith(Lower(name), Lower(prefix))
  {
    var p := Lower(prefix);
    LowerKeepsNoWildcards(prefix);
    assert Lower(prefix + "*") == p + "*";
    assert !NoWildcards(p + "*") by { assert (p + "*")[|p|] == '*'; }
    ScanLiteralRun(p, "*", false, []);
    assert [] + p == p;
    assert Scan("*", false, p) == [Text(p), AnyRun] by {
      assert Scan("*"[1..], true, []) == [];
      assert Flush(p) == [Text(p)];
    }
    var n := Lower(name);
    var toks := [Text(p), AnyRun];
    assert Tokens(p + "*") == toks;
    assert toks[1..] == [AnyRun];
    assert Matches(toks, n, 0, false) <==> TextAt(n, 0, p);
  }

  /** For a pattern without wildcards, equality ignoring case and a wildcard match are the same test. */
  lemma EqualsIgnoreCaseIsWildcardMatch(pattern: string, name: string)
    requires NoWildcards(pattern)
    ensures EqualsIgnoreCase(pattern, name) <==> WildcardMatch(name, pattern)
  {
    LiteralMatch(pattern, name);
  }

  /** Lower-casing keeps a pattern free of wildcards. */
  lemma LowerKeepsNoWildcards(p: string)
    requires NoWildcards(p)
    ensures NoWildcards(Lower(p))
  {
  }
}
