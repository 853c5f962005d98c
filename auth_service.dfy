/** Cookie handling of the browser client (src/services/authService.ts). `document.cookie` is passed in as a
    string; what is written to it is returned as a string. */
module AuthService {
  import opened Wrappers
  import opened Strings

  const AuthTokenCookie: string := "auth_token"

  /** `while (c.charAt(0) === ' ') c = c.substring(1)`: drop the leading spaces. */
  function StripLeadingSpaces(c: string): (r: string)
    ensures |r| <= |c|
    ensures r == "" || r[0] != ' '
  {
    if |c| > 0 && c[0] == ' ' then StripLeadingSpaces(c[1..]) else c
  }

  /** Exactly the leading spaces are dropped: the result is what follows them in `c`. */
  lemma {:induction false} StripsExactlyLeadingSpaces(c: string)
    ensures var r := StripLeadingSpaces(c);
      r == c[|c| - |r|..] && forall i :: 0 <= i < |c| - |r| ==> c[i] == ' '
  {
    if |c| > 0 && c[0] == ' ' {
      StripsExactlyLeadingSpaces(c[1..]);
    }
  }

  /** What `getCookie` returns for the pieces of `document.cookie` split at ';': the rest of the first
      piece that starts with `name=` once its leading spaces are dropped. */
  function CookieValue(pieces: seq<string>, name: string): Option<string>
  {
    if pieces == [] then None
    else
      var c := StripLeadingSpaces(pieces[0]);
      if name + "=" <= c then Some(c[|name| + 1..]) else CookieValue(pieces[1..], name)
  }

  /** The piece that matches `name`, after its leading spaces are dropped. */
  predicate PieceMatches(piece: string, name: string)
  {
    name + "=" <= StripLeadingSpaces(piece)
  }

  /** Piece k is the first piece that matches `name`. */
  predicate FirstMatchAt(pieces: seq<string>, name: string, k: int)
  {
    0 <= k < |pieces| && PieceMatches(pieces[k], name) &&
    forall j :: 0 <= j < k ==> !PieceMatches(pieces[j], name)
  }

  /** `getCookie(name)` over the cookie string `documentCookie`. */
  method GetCookie(documentCookie: string, name: string) returns (r: Option<string>)
    ensures r == CookieValue(Split(documentCookie, ';'), name)
  {
    var nameEQ := name + "=";
    var ca := Split(documentCookie, ';');
    var i := 0;
    while i < |ca|
      invariant 0 <= i <= |ca|
      invariant CookieValue(ca[i..], name) == CookieValue(ca, name)
    {
      var c := ca[i];
      while |c| > 0 && c[0] == ' '
        invariant StripLeadingSpaces(c) == StripLeadingSpaces(ca[i])
      {
        c := c[1..];
      }
      assert ca[i..][1..] == ca[i + 1..];
      if nameEQ <= c {
        return Some(c[|nameEQ|..]);
      }
      i := i + 1;
    }
    return None;
  }

  /** `getCookie` returns nothing exactly when no piece starts with `name=`; otherwise it returns the rest
      of the first piece that does. */
  lemma {:induction false} CookieValueSpec(pieces: seq<string>, name: string)
    ensures CookieValue(pieces, name).None? <==> forall k :: 0 <= k < |pieces| ==> !PieceMatches(pieces[k], name)
    ensures CookieValue(pieces, name).Some? ==>
      exists k :: 0 <= k < |pieces| && PieceMatches(pieces[k], name) &&
        StripLeadingSpaces(pieces[k]) == name + "=" + CookieValue(pieces, name).value &&
        forall j :: 0 <= j < k ==> !PieceMatches(pieces[j], name)
  {
    if pieces != [] {
      CookieValueSpec(pieces[1..], name);
      var c := StripLeadingSpaces(pieces[0]);
      if name + "=" <= c {
        assert c == name + "=" + c[|name| + 1..];
      } else {
        if CookieValue(pieces, name).Some? {
          var k :| 0 <= k < |pieces[1..]| && PieceMatches(pieces[1..][k], name) &&
            StripLeadingSpaces(pieces[1..][k]) == name + "=" + CookieValue(pieces, name).value &&
            forall j :: 0 <= j < k ==> !PieceMatches(pieces[1..][j], name);
          assert PieceMatches(pieces[k + 1], name);
        }
      }
    }
  }

  /** The name must sit at the start of the piece: "xauth_token=v" is not the "auth_token" cookie. */
  lemma NameMustStartPiece()
    ensures CookieValue(Split("xauth_token=v", ';'), AuthTokenCookie) == None
  {
    SplitNoSeparator("xauth_token=v", ';');
    assert !(AuthTokenCookie + "=" <= "xauth_token=v") by { assert "xauth_token=v"[0] != 'a'; }
  }

  /** The value runs to the end of the piece, so it may itself contain '='. */
  lemma ValueMayContainEquals(name: string, value: string)
    requires ';' !in name + "=" + value
    requires name == "" || name[0] != ' '
    ensures CookieValue(Split(name + "=" + value, ';'), name) == Some(value)
  {
    var piece := name + "=" + value;
    SplitNoSeparator(piece, ';');
    assert piece[0] != ' ';
    CookieValueOfMatch(piece, name, value);
  }

  /** A single piece that reads `name=value` once its leading spaces are dropped yields `value`. */
  lemma CookieValueOfMatch(piece: string, name: string, value: string)
    requires StripLeadingSpaces(piece) == name + "=" + value
    ensures CookieValue([piece], name) == Some(value)
  {
    assert name + "=" <= name + "=" + value;
    assert (name + "=" + value)[|name| + 1..] == value;
  }

  /** `isAuthenticated()`: the auth_token cookie is present with a non-empty value. */
  method IsAuthenticated(documentCookie: string) returns (b: bool)
    ensures b <==> exists k ::
      FirstMatchAt(Split(documentCookie, ';'), AuthTokenCookie, k) &&
      |StripLeadingSpaces(Split(documentCookie, ';')[k])| > |AuthTokenCookie| + 1
  {
    var token := GetCookie(documentCookie, AuthTokenCookie);
    CookieValueSpec(Split(documentCookie, ';'), AuthTokenCookie);
    b := token.Some? && token.value != "";
    var pieces := Split(documentCookie, ';');
    if token.Some? {
      forall k | 0 <= k < |pieces| && PieceMatches(pieces[k], AuthTokenCookie) &&
        (forall j :: 0 <= j < k ==> !PieceMatches(pieces[j], AuthTokenCookie))
        ensures StripLeadingSpaces(pieces[k]) == AuthTokenCookie + "=" + token.value
      {
        var k' :| 0 <= k' < |pieces| && PieceMatches(pieces[k'], AuthTokenCookie) &&
          StripLeadingSpaces(pieces[k']) == AuthTokenCookie + "=" + token.value &&
          forall j :: 0 <= j < k' ==> !PieceMatches(pieces[j], AuthTokenCookie);
        assert k == k';
      }
    }
  }

  /** The string `setCookie` assigns to `document.cookie`; `expires` is the UTC date text and `https` whether
      the page was loaded over https. The pair `name=value`, then ';', then the attributes. */
  function SetCookieString(name: string, value: string, expires: string, https: bool): string
  {
    name + "=" + value + ";" + SetCookieAttributes(expires, https)
  }

  /** What follows the first ';' in what `setCookie` writes. */
  function SetCookieAttributes(expires: string, https: bool): string
  {
    " expires=" + expires + "; path=/; SameSite=Strict; " + (if https then "Secure;" else "")
  }

  /** The string `deleteCookie` assigns: an empty value that expired in 1970. */
  function DeleteCookieString(name: string): string
  {
    name + "=" + ";" + ExpiredAttributes
  }

  const ExpiredAttributes: string := " expires=Thu, 01 Jan 1970 00:00:00 UTC; path=/;"

  /** The first ';'-piece of what `setCookie` writes is `name=value`, so reading the written string back
      with `getCookie` yields the value. */
  lemma SetCookieReadBack(name: string, value: string, expires: string, https: bool)
    requires ';' !in name && ';' !in value && '=' !in name
    requires name == "" || name[0] != ' '
    ensures Split(SetCookieString(name, value, expires, https), ';')[0] == name + "=" + value
    ensures CookieValue(Split(SetCookieString(name, value, expires, https), ';'), name) == Some(value)
  {
    var pair := name + "=" + value;
    assert ';' !in pair;
    SplitFirstPiece(pair, SetCookieAttributes(expires, https), ';');
    assert pair[0] != ' ';
    assert name + "=" <= pair && pair[|name| + 1..] == value;
  }

  /** `Secure;` ends what `setCookie` writes exactly when the page is served over https. */
  lemma SetCookieSecureOnHttps(name: string, value: string, expires: string, https: bool)
    ensures var s := SetCookieString(name, value, expires, https);
      |s| >= 7 && (s[|s| - 7..] == "Secure;" <==> https)
  {
    var s := SetCookieString(name, value, expires, https);
    var attributes := SetCookieAttributes(expires, https);
    var head := " expires=" + expires + "; path=/; SameSite=Strict; ";
    assert s[|s| - 7..] == attributes[|attributes| - 7..];
    assert head[|head| - 8..] == "Strict; ";
    if https {
      assert attributes == head + "Secure;";
    } else {
      assert attributes == head;
      assert attributes[|attributes| - 7..][6] == ' ';
    }
  }

  /** After `deleteCookie`, the written string reads back as an empty value, which `isAuthenticated`
      treats as absent. */
  lemma DeleteCookieReadsEmpty(name: string)
    requires ';' !in name && '=' !in name
    requires name == "" || name[0] != ' '
    ensures CookieValue(Split(DeleteCookieString(name), ';'), name) == Some("")
  {
    var pair := name + "=";
    SplitFirstPiece(pair, ExpiredAttributes, ';');
    assert pair[0] != ' ';
    assert pair[|name| + 1..] == "";
  }

  /** A cookie as the browser lists it in `document.cookie`. */
  datatype Cookie = Cookie(name: string, value: string)

  predicate WellFormedCookie(c: Cookie)
  {
    ';' !in c.name && '=' !in c.name && (c.name == "" || c.name[0] != ' ') && ';' !in c.value
  }

  function PairText(c: Cookie): string
  {
    c.name + "=" + c.value
  }

  /** `document.cookie` as the browser presents it: the pairs joined by "; ". */
  function Render(jar: seq<Cookie>): string
  {
    if jar == [] then ""
    else if |jar| == 1 then PairText(jar[0])
    else PairText(jar[0]) + "; " + Render(jar[1..])
  }

  /** The value of the first cookie called `name`. */
  function FirstValue(jar: seq<Cookie>, name: string): Option<string>
  {
    if jar == [] then None
    else if jar[0].name == name then Some(jar[0].value)
    else FirstValue(jar[1..], name)
  }

  /** With names free of '=', a pair `k=v` starts with `name=` exactly when k is name. */
  lemma PairMatches(c: Cookie, name: string)
    requires WellFormedCookie(c) && '=' !in name
    ensures StripLeadingSpaces(PairText(c)) == PairText(c)
    ensures name + "=" <= PairText(c) <==> c.name == name
  {
    var t := PairText(c);
    var p := name + "=";
    if |c.name| < |name| {
      assert t[|c.name|] == '=';
      assert name[|c.name|] in name;
      assert p[|c.name|] != t[|c.name|];
    } else if |c.name| > |name| {
      assert p[|name|] == '=';
      assert c.name[|name|] in c.name;
      assert t[|name|] != p[|name|];
    } else {
      assert t[..|p|] == c.name + "=";
      assert t[..|p|][..|name|] == c.name;
      assert p[..|name|] == name;
    }
  }

  /** A space in front of the first piece does not change what `getCookie` finds. */
  lemma LeadingSpaceIgnored(pieces: seq<string>, name: string)
    requires |pieces| >= 1
    ensures CookieValue([" " + pieces[0]] + pieces[1..], name) == CookieValue(pieces, name)
  {
    assert StripLeadingSpaces(" " + pieces[0]) == StripLeadingSpaces(pieces[0]) by {
      assert (" " + pieces[0])[1..] == pieces[0];
    }
    assert ([" " + pieces[0]] + pieces[1..])[1..] == pieces[1..];
  }

  /** Reading a cookie from the browser's `document.cookie` returns the value of the first cookie with that
      name, or nothing when there is none. */
  lemma {:induction false} GetCookieReadsJar(jar: seq<Cookie>, name: string)
    requires forall k :: 0 <= k < |jar| ==> WellFormedCookie(jar[k])
    requires '=' !in name
    ensures CookieValue(Split(Render(jar), ';'), name) == FirstValue(jar, name)
  {
    if jar == [] {
      assert Split("", ';') == [""];
      assert !(name + "=" <= "");
    } else {
      var t := PairText(jar[0]);
      PairMatches(jar[0], name);
      assert ';' !in t;
      if |jar| == 1 {
        SplitNoSeparator(t, ';');
      } else {
        var r := Render(jar[1..]);
        assert Render(jar) == t + [';'] + (" " + r);
        SplitAtSeparator(t, " " + r, ';');
        SplitNoSeparator(t, ';');
        SplitPrefix(" ", r, ';');
        var pieces := Split(r, ';');
        assert Split(" " + r, ';') == [" " + pieces[0]] + pieces[1..];
        assert Split(Render(jar), ';') == [t] + ([" " + pieces[0]] + pieces[1..]);
        assert Split(Render(jar), ';')[1..] == [" " + pieces[0]] + pieces[1..];
        GetCookieReadsJar(jar[1..], name);
        LeadingSpaceIgnored(pieces, name);
      }
    }
  }
}
