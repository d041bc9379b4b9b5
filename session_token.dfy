/** The session token handed to the browser and its `Set-Cookie` value
    `<name>=<token>; Max-Age=<seconds>; Path=/; HttpOnly`. */
module SessionTokens {
  import opened Base
  import opened Decimal

  /** The session cookie's name, a process-wide constant. The value here is a
      stand-in: every lemma below holds for any name (see Render). */
  const SessionCookieName: string := "rustwi_session"

  /** Lifetime of an issued session, in seconds (seven days). */
  const SessionLifetime: nat := 604800

  /** The token value of the placeholder cookie that evicts a session. */
  const DeletedToken: string := "deleted"

  datatype SessionToken = SessionToken(token: string, maxAge: nat)
  {
    /** The token of a freshly issued session, valid for seven days. */
    static function New(token: string): (r: SessionToken)
      ensures r.token == token && r.maxAge == 604800
    {
      SessionToken(token, SessionLifetime)
    }

    /** The placeholder that makes the browser drop the session cookie. */
    static function Clear(): (r: SessionToken)
      ensures r.token == "deleted" && r.maxAge == 0
    {
      SessionToken(DeletedToken, 0)
    }

    function Cookie(): string {
      Render(SessionCookieName, token, maxAge)
    }
  }

  /** The cookie format, for any cookie name. */
  function Render(name: string, token: string, maxAge: nat): string {
    name + "=" + token + "; Max-Age=" + NatToString(maxAge) + "; Path=/; HttpOnly"
  }

  const MaxAgeAttribute: string := "; Max-Age="
  const FixedAttributes: string := "; Path=/; HttpOnly"

  /** The first position of `c` in `s`. */
  function IndexOf(s: string, c: char): (r: Option<nat>)
    ensures r.Some? ==> r.value < |s| && s[r.value] == c && c !in s[..r.value]
    ensures r.None? ==> c !in s
  {
    if s == [] then None
    else if s[0] == c then Some(0)
    else match IndexOf(s[1..], c)
      case None => None
      case Some(k) => Some(k + 1)
  }

  lemma {:induction false} IndexOfAfter(a: string, b: string, c: char)
    requires c !in a && |b| > 0 && b[0] == c
    ensures IndexOf(a + b, c) == Some(|a|)
    decreases |a|
  {
    if a == [] {
      assert a + b == b;
    } else {
      assert (a + b)[0] == a[0];
      assert (a + b)[1..] == a[1..] + b;
      IndexOfAfter(a[1..], b, c);
    }
  }

  /** Reads the attribute part `; Max-Age=<n>; Path=/; HttpOnly` back. */
  ghost function ParseAttributes(attrs: string): Option<nat> {
    if && |MaxAgeAttribute| + |FixedAttributes| <= |attrs|
       && attrs[..|MaxAgeAttribute|] == MaxAgeAttribute
       && attrs[|attrs| - |FixedAttributes|..] == FixedAttributes
    then ParseNat(attrs[|MaxAgeAttribute|..|attrs| - |FixedAttributes|])
    else None
  }

  /** Reads a cookie value back: the specification partner of Render. The
      token runs up to the first `;`, and the lifetime must be canonical. */
  ghost function ParseCookie(name: string, s: string): Option<SessionToken> {
    var head := name + "=";
    if !(|head| <= |s| && s[..|head|] == head) then None
    else
      var rest := s[|head|..];
      match IndexOf(rest, ';')
      case None => None
      case Some(k) =>
        match ParseAttributes(rest[k..])
        case None => None
        case Some(n) => Some(SessionToken(rest[..k], n))
  }

  lemma AttributesIff(attrs: string, n: nat)
    ensures ParseAttributes(attrs) == Some(n) <==> attrs == MaxAgeAttribute + NatToString(n) + FixedAttributes
  {
    var digits := NatToString(n);
    if attrs == MaxAgeAttribute + digits + FixedAttributes {
      assert attrs[..|MaxAgeAttribute|] == MaxAgeAttribute;
      assert attrs[|attrs| - |FixedAttributes|..] == FixedAttributes;
      assert attrs[|MaxAgeAttribute|..|attrs| - |FixedAttributes|] == digits;
      ParseNatIff(digits, n);
    }
    if ParseAttributes(attrs) == Some(n) {
      var mid := attrs[|MaxAgeAttribute|..|attrs| - |FixedAttributes|];
      ParseNatIff(mid, n);
      assert attrs == attrs[..|MaxAgeAttribute|] + mid + attrs[|attrs| - |FixedAttributes|..];
    }
  }

  lemma RenderParses(name: string, t: SessionToken)
    requires ';' !in t.token
    ensures ParseCookie(name, Render(name, t.token, t.maxAge)) == Some(t)
  {
    var s := Render(name, t.token, t.maxAge);
    var head := name + "=";
    var attrs := MaxAgeAttribute + NatToString(t.maxAge) + FixedAttributes;
    var rest := t.token + attrs;
    assert s == head + rest;
    assert s[..|head|] == head && s[|head|..] == rest;
    IndexOfAfter(t.token, attrs, ';');
    assert rest[..|t.token|] == t.token && rest[|t.token|..] == attrs;
    AttributesIff(attrs, t.maxAge);
  }

  /** What a successful parse has found in the cookie string. */
  lemma ParseCookieParts(name: string, s: string)
    requires ParseCookie(name, s).Some?
    ensures var head := name + "=";
      && |head| <= |s| && s[..|head|] == head
      && IndexOf(s[|head|..], ';').Some?
      && var k := IndexOf(s[|head|..], ';').value;
      && ParseCookie(name, s).value.token == s[|head|..][..k]
      && ParseAttributes(s[|head|..][k..]) == Some(ParseCookie(name, s).value.maxAge)
  {
  }

  lemma RenderShape(name: string, token: string, n: nat)
    ensures Render(name, token, n) == (name + "=") + token + (MaxAgeAttribute + NatToString(n) + FixedAttributes)
  {
  }

  lemma Reassemble(name: string, s: string, k: nat, n: nat)
    requires |name + "="| <= |s| && s[..|name + "="|] == name + "="
    requires IndexOf(s[|name + "="|..], ';') == Some(k)
    requires s[|name + "="|..][k..] == MaxAgeAttribute + NatToString(n) + FixedAttributes
    ensures ';' !in s[|name + "="|..][..k]
    ensures s == Render(name, s[|name + "="|..][..k], n)
  {
    var head := name + "=";
    var rest := s[|head|..];
    assert s == head + (rest[..k] + rest[k..]);
    RenderShape(name, rest[..k], n);
  }

  lemma ParsedRenders(name: string, s: string, t: SessionToken)
    requires ParseCookie(name, s) == Some(t)
    ensures ';' !in t.token && s == Render(name, t.token, t.maxAge)
  {
    ParseCookieParts(name, s);
    var rest := s[|name + "="|..];
    var k := IndexOf(rest, ';').value;
    AttributesIff(rest[k..], t.maxAge);
    Reassemble(name, s, k, t.maxAge);
  }

  /** A cookie value is exactly the rendering of the token it parses to, and
      rendering loses nothing as long as the token holds no `;`. */
  lemma ParseCookieIff(name: string, s: string, t: SessionToken)
    ensures ParseCookie(name, s) == Some(t)
            <==> ';' !in t.token && s == Render(name, t.token, t.maxAge)
  {
    if ';' !in t.token && s == Render(name, t.token, t.maxAge) {
      RenderParses(name, t);
    }
    if ParseCookie(name, s) == Some(t) {
      ParsedRenders(name, s, t);
    }
  }

  /** Every token the server issues renders, under any cookie name, to a
      cookie that reads back as the same token. */
  lemma RenderRoundTrip(name: string, t: SessionToken)
    requires ';' !in t.token
    ensures ParseCookie(name, Render(name, t.token, t.maxAge)) == Some(t)
  {
    ParseCookieIff(name, Render(name, t.token, t.maxAge), t);
  }

  /** RenderRoundTrip for the session cookie's name. */
  lemma CookieRoundTrip(t: SessionToken)
    requires ';' !in t.token
    ensures ParseCookie(SessionCookieName, t.Cookie()) == Some(t)
  {
    RenderRoundTrip(SessionCookieName, t);
  }

  predicate OccursAt(s: string, sub: string, i: nat) {
    i + |sub| <= |s| && s[i..i + |sub|] == sub
  }

  predicate Contains(s: string, sub: string) {
    exists i: nat | i <= |s| :: OccursAt(s, sub, i)
  }

  /** Under any cookie name, an issued session's cookie begins
      `<name>=<token>; Max-Age=604800;`. */
  lemma RenderNewPrefix(name: string, token: string)
    ensures var c := Render(name, token, SessionLifetime);
            var p := name + "=" + token + "; Max-Age=604800;";
            |p| <= |c| && c[..|p|] == p
  {
  }

  /** RenderNewPrefix for the session cookie's name. */
  lemma NewCookiePrefix(token: string)
    ensures var c := SessionToken.New(token).Cookie();
            var p := SessionCookieName + "=" + token + "; Max-Age=604800;";
            |p| <= |c| && c[..|p|] == p
  {
    RenderNewPrefix(SessionCookieName, token);
  }

  /** Under any cookie name, the clearing cookie carries the value `deleted`
      and a zero lifetime. */
  lemma RenderClearEvicts(name: string)
    ensures var c := Render(name, DeletedToken, 0);
            Contains(c, "=deleted") && Contains(c, "Max-Age=0")
  {
    var c := Render(name, DeletedToken, 0);
    var n := |name|;
    assert NatToString(0) == "0";
    assert c == name + "=deleted; Max-Age=0; Path=/; HttpOnly";
    assert OccursAt(c, "=deleted", n);
    assert OccursAt(c, "Max-Age=0", n + 10);
  }

  /** RenderClearEvicts for the session cookie's name. */
  lemma ClearCookieEvicts()
    ensures var c := SessionToken.Clear().Cookie();
            Contains(c, "=deleted") && Contains(c, "Max-Age=0")
  {
    RenderClearEvicts(SessionCookieName);
  }
}
