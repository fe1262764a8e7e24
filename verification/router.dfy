/**
 Hash routing: the page a location hash selects.
 */
module Router {
  import Text
  import Token

  datatype Route = Home | Admin | Test(token: string)

  /** `parseHash` over the hash text: drop the first `#`, then a `/t/`
      prefix selects the respondent page with the trimmed rest as token,
      an `/admin` prefix the administrator panel, anything else home. */
  function ParseHash(hash: string): (r: Route)
    ensures var raw := Text.ReplaceFirst(hash, "#", "");
      && (Text.StartsWith(raw, "/t/") ==> r == Test(Text.Trim(raw[3..])))
      && (!Text.StartsWith(raw, "/t/") && Text.StartsWith(raw, "/admin") ==> r == Admin)
      && (!Text.StartsWith(raw, "/t/") && !Text.StartsWith(raw, "/admin") ==> r == Home)
  {
    var raw := Text.ReplaceFirst(hash, "#", "");
    if Text.StartsWith(raw, "/t/") then
      Text.ReplacePrefix(raw, "/t/");
      Test(Text.Trim(Text.ReplaceFirst(raw, "/t/", "")))
    else if Text.StartsWith(raw, "/admin") then Admin
    else Home
  }

  /** The hash link of a generated token routes to the respondent page with
      exactly that token. */
  lemma TokenLinkRoutes(random: seq<Token.byte>)
    requires |random| == 16
    ensures ParseHash("#/t/" + Token.GenerateToken(random)) == Test(Token.GenerateToken(random))
  {
    var token := Token.GenerateToken(random);
    assert !Text.IsWhitespace(token[0]) && !Text.IsWhitespace(token[|token| - 1]) by {
      assert Token.IsHexChar(token[0]) && Token.IsHexChar(token[|token| - 1]);
    }
    TestLinkRoutes(token);
  }

  /** A hash link `#/t/<token>` routes to the respondent page with that
      token whenever the token has no surrounding whitespace. */
  lemma TestLinkRoutes(token: string)
    requires token == [] || (!Text.IsWhitespace(token[0]) && !Text.IsWhitespace(token[|token| - 1]))
    ensures ParseHash("#/t/" + token) == Test(token)
  {
    TestLinkRaw(token);
    Text.TrimKeepsTrimmed(token);
  }

  /** Dropping the `#` of `#/t/<token>` leaves `/t/<token>`, whose rest
      after the prefix is the token. */
  lemma TestLinkRaw(token: string)
    ensures var raw := Text.ReplaceFirst("#/t/" + token, "#", "");
      raw == "/t/" + token && Text.StartsWith(raw, "/t/") && raw[3..] == token
  {
    var hash := "#/t/" + token;
    var raw := "/t/" + token;
    assert hash[..1] == "#";
    Text.ReplacePrefix(hash, "#");
    assert hash[1..] == raw;
    assert raw[..3] == "/t/";
  }

  /** An administrator hash routes to the panel, with or without its `#`,
      whatever follows. */
  lemma AdminRoutes(rest: string)
    ensures ParseHash("#/admin" + rest) == Admin
    ensures ParseHash("/admin" + rest) == Admin
  {
    var h1 := "#/admin" + rest;
    assert Text.OccursAt(h1, "#", 0);
    Text.ReplacePrefix(h1, "#");
    assert h1[1..] == "/admin" + rest;
    AdminPrefixSurvives(rest);
  }

  /** Removing the first `#` keeps an `/admin` prefix, since the prefix
      holds no `#`. */
  lemma AdminPrefixSurvives(rest: string)
    ensures Text.StartsWith(Text.ReplaceFirst("/admin" + rest, "#", ""), "/admin")
    ensures !Text.StartsWith(Text.ReplaceFirst("/admin" + rest, "#", ""), "/t/")
  {
    var s := "/admin" + rest;
    var r := Text.ReplaceFirst(s, "#", "");
    if Text.IndexOf(s, "#").Some? {
      var i := Text.IndexOf(s, "#").value;
      assert s[i] == '#' by {
        assert Text.OccursAt(s, "#", i);
        assert s[i..i + 1][0] == s[i];
      }
      assert i >= 6;
      assert r[..6] == s[..6];
      assert r[1] == 'a';
    } else {
      assert r[1] == 'a';
    }
  }
}
