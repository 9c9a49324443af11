/**
 * Endpoint resolution: the `atlas.rest.address` setting is split on commas the way
 * Java's `String.split(",")` does, and trailing `/` characters are stripped from
 * every entry.
 */
module AtlasEndpoints {
  import opened Wrappers

  /** Number of occurrences of `c` in `s`. */
  function Count(s: string, c: char): nat
  {
    if |s| == 0 then 0 else (if s[0] == c then 1 else 0) + Count(s[1..], c)
  }

  /** Every run of characters between commas, empty runs included, in order. */
  function Pieces(s: string): (r: seq<string>)
    ensures |r| >= 1
  {
    if |s| == 0 then [""]
    else if s[0] == ',' then [""] + Pieces(s[1..])
    else
      var rest := Pieces(s[1..]);
      [[s[0]] + rest[0]] + rest[1..]
  }

  /** The pieces put back together with commas between them. */
  function Join(ps: seq<string>): string
    requires |ps| >= 1
  {
    if |ps| == 1 then ps[0] else ps[0] + "," + Join(ps[1..])
  }

  /** Splitting on commas loses nothing: joining the pieces gives back the input. */
  lemma {:induction false} JoinPieces(s: string)
    ensures Join(Pieces(s)) == s
    decreases |s|
  {
    if |s| > 0 {
      JoinPieces(s[1..]);
      var rest := Pieces(s[1..]);
      if s[0] == ',' {
        assert s == [','] + s[1..];
      } else if |rest| == 1 {
        assert s == [s[0]] + s[1..];
      } else {
        assert Join(Pieces(s)) == [s[0]] + rest[0] + "," + Join(rest[1..]);
        assert s == [s[0]] + s[1..];
      }
    }
  }

  /** There is one piece more than there are commas, and no piece holds a comma. */
  lemma {:induction false} PiecesShape(s: string)
    ensures |Pieces(s)| == Count(s, ',') + 1
    ensures forall k :: 0 <= k < |Pieces(s)| ==> ',' !in Pieces(s)[k]
    decreases |s|
  {
    if |s| > 0 {
      PiecesShape(s[1..]);
      var rest := Pieces(s[1..]);
      if s[0] != ',' {
        assert forall k :: 1 <= k < |Pieces(s)| ==> Pieces(s)[k] == rest[k];
        assert Pieces(s)[0] == [s[0]] + rest[0];
      }
    }
  }

  /** Java's `split` with limit 0 discards the empty strings at the end of the result. */
  function DropTrailingEmpty(ps: seq<string>): seq<string>
  {
    if |ps| == 0 then []
    else if ps[|ps| - 1] == "" then DropTrailingEmpty(ps[..|ps| - 1])
    else ps
  }

  /**
   * `s.split(",")`: when no comma occurs the result is `[s]` (so `""` gives `[""]`);
   * otherwise the comma-separated pieces without the trailing empty ones.
   */
  function JavaSplit(s: string): seq<string>
  {
    if ',' !in s then [s] else DropTrailingEmpty(Pieces(s))
  }

  /** Dropping trailing empties keeps a prefix and removes only empty strings; a kept last piece is non-empty. */
  lemma {:induction false} DropTrailingEmptyShape(ps: seq<string>)
    ensures var r := DropTrailingEmpty(ps);
      && |r| <= |ps| && r == ps[..|r|]
      && (forall k :: |r| <= k < |ps| ==> ps[k] == "")
      && (|r| > 0 ==> r[|r| - 1] != "")
    decreases |ps|
  {
    if |ps| > 0 && ps[|ps| - 1] == "" {
      DropTrailingEmptyShape(ps[..|ps| - 1]);
    }
  }

  /**
   * The result of `split` is `[s]` without a comma; otherwise it lists the leading
   * comma-separated pieces in order, ends in a non-empty piece, and drops only
   * empty pieces.
   */
  lemma JavaSplitShape(s: string)
    ensures ',' !in s ==> JavaSplit(s) == [s]
    ensures var r := JavaSplit(s);
      && |r| <= Count(s, ',') + 1 == |Pieces(s)|
      && (forall k :: 0 <= k < |r| ==> r[k] == Pieces(s)[k] && ',' !in r[k])
      && (',' in s ==> forall k :: |r| <= k < |Pieces(s)| ==> Pieces(s)[k] == "")
      && (',' in s && |r| > 0 ==> r[|r| - 1] != "")
  {
    PiecesShape(s);
    DropTrailingEmptyShape(Pieces(s));
    if ',' !in s {
      CountAbsent(s, ',');
      PiecesWithoutComma(s);
    }
  }

  lemma {:induction false} CountAbsent(s: string, c: char)
    requires c !in s
    ensures Count(s, c) == 0
    decreases |s|
  {
    if |s| > 0 {
      assert c !in s[1..] by { assert forall k :: 0 <= k < |s[1..]| ==> s[1..][k] == s[k + 1]; }
      CountAbsent(s[1..], c);
    }
  }

  lemma {:induction false} PiecesWithoutComma(s: string)
    requires ',' !in s
    ensures Pieces(s) == [s]
    decreases |s|
  {
    if |s| > 0 {
      assert ',' !in s[1..] by { assert forall k :: 0 <= k < |s[1..]| ==> s[1..][k] == s[k + 1]; }
      PiecesWithoutComma(s[1..]);
      assert s == [s[0]] + s[1..];
    }
  }

  /** `url` with every trailing `/` removed. */
  function StripTrailingSlashes(url: string): string
  {
    if |url| > 0 && url[|url| - 1] == '/' then StripTrailingSlashes(url[..|url| - 1]) else url
  }

  /**
   * Stripping removes trailing separators and nothing else: the result is a prefix of
   * the entry, does not end with `/`, and only `/` characters were removed.
   */
  lemma {:induction false} StripTrailingSlashesSpec(url: string)
    ensures var r := StripTrailingSlashes(url);
      && |r| <= |url| && r == url[..|r|]
      && (|r| == 0 || r[|r| - 1] != '/')
      && (forall k :: |r| <= k < |url| ==> url[k] == '/')
    decreases |url|
  {
    if |url| > 0 && url[|url| - 1] == '/' {
      StripTrailingSlashesSpec(url[..|url| - 1]);
    }
  }

  /** Stripping twice is the same as stripping once. */
  lemma StripTrailingSlashesIdempotent(url: string)
    ensures StripTrailingSlashes(StripTrailingSlashes(url)) == StripTrailingSlashes(url)
  {
    StripTrailingSlashesSpec(url);
  }

  /** The endpoint list `getAtlasUrls` yields for the configured address (null when the key is absent). */
  function AtlasUrls(config: Option<string>): seq<string>
  {
    match config
    case None => []
    case Some(s) =>
      var pieces := JavaSplit(s);
      seq(|pieces|, i requires 0 <= i < |pieces| => StripTrailingSlashes(pieces[i]))
  }

  /**
   * Resolved endpoints: none for an absent setting, otherwise one per piece of `split`,
   * each that piece with its trailing separators removed and no trailing `/` left.
   */
  lemma AtlasUrlsSpec(config: Option<string>)
    ensures config.None? ==> AtlasUrls(config) == []
    ensures config.Some? ==>
      var pieces := JavaSplit(config.value);
      && |AtlasUrls(config)| == |pieces|
      && forall k :: 0 <= k < |pieces| ==>
           var u := AtlasUrls(config)[k];
           && |u| <= |pieces[k]| && u == pieces[k][..|u|]
           && (|u| == 0 || u[|u| - 1] != '/')
           && (forall j :: |u| <= j < |pieces[k]| ==> pieces[k][j] == '/')
  {
    if config.Some? {
      var pieces := JavaSplit(config.value);
      forall k | 0 <= k < |pieces| {
        StripTrailingSlashesSpec(pieces[k]);
      }
    }
  }

  /** A configured address without commas gives exactly one endpoint, even when it is empty. */
  lemma SingleAddress(s: string)
    requires ',' !in s
    ensures AtlasUrls(Some(s)) == [StripTrailingSlashes(s)]
  {
  }

  /** `"http://a/,http://b//"` resolves to `["http://a", "http://b"]`. */
  lemma TwoAddressesExample()
    ensures AtlasUrls(Some("http://a/,http://b//")) == ["http://a", "http://b"]
  {
    var a, b := "http://a/", "http://b//";
    var s := a + [','] + b;
    assert "http://a/,http://b//" == s;
    SplitTwo(a, b);
    assert JavaSplit("http://a/,http://b//") == [a, b];
    StripOneSlash("http://a");
    assert a == "http://a" + "/";
    assert StripTrailingSlashes("http://a") == "http://a";
    StripOneSlash("http://b/");
    StripOneSlash("http://b");
    assert b == "http://b/" + "/";
    assert "http://b/" == "http://b" + "/";
    assert StripTrailingSlashes("http://b") == "http://b";
    assert StripTrailingSlashes(a) == "http://a";
    assert StripTrailingSlashes(b) == "http://b";
  }

  lemma SplitTwo(a: string, b: string)
    requires ',' !in a && ',' !in b && b != ""
    ensures JavaSplit(a + [','] + b) == [a, b]
  {
    PiecesSplitAt(a, b);
    PiecesWithoutComma(b);
    assert (a + [','] + b)[|a|] == ',';
  }

  lemma StripOneSlash(u: string)
    ensures StripTrailingSlashes(u + "/") == StripTrailingSlashes(u)
  {
    assert (u + "/")[..|u|] == u;
  }

  /** Pieces of a string with one comma after a comma-free head. */
  lemma {:induction false} PiecesSplitAt(a: string, b: string)
    requires ',' !in a
    ensures Pieces(a + [','] + b) == [a] + Pieces(b)
    decreases |a|
  {
    if |a| == 0 {
      assert a + [','] + b == [','] + b;
      assert ([','] + b)[1..] == b;
    } else {
      assert ',' !in a[1..] by { assert forall k :: 0 <= k < |a[1..]| ==> a[1..][k] == a[k + 1]; }
      PiecesSplitAt(a[1..], b);
      assert (a + [','] + b)[1..] == a[1..] + [','] + b;
      assert a == [a[0]] + a[1..];
    }
  }
}
