/**
 * `check_auth`: HTTP Basic authentication (section 2 of RFC 7617) against the
 * fixed credentials `admin`/`admin`, with the base64 step (section 4 of
 * RFC 4648) supplied from outside.
 */
module Auth {
  import opened Base
  import opened Text
  import opened Utf8
  import opened Request

  const AuthUser: string := "admin"
  const AuthPass: string := "admin"

  /** `check_auth(headers)`; every exception inside it is a plain false. */
  function CheckAuth(headers: Headers, a2bBase64: string -> Option<Bytes>): (ok: bool)
    ensures ok ==> "Authorization" in headers && headers["Authorization"] != ""
  {
    if "Authorization" !in headers || headers["Authorization"] == "" then false
    else
      var words := Split(headers["Authorization"], " ");
      if |words| < 2 then false
      else
        match a2bBase64(words[1])
        case None => false
        case Some(raw) =>
          match Decode(raw)
          case None => false
          case Some(text) =>
            var fields := Split(text, ":");
            |fields| >= 2 && fields[0] == AuthUser && fields[1] == AuthPass
  }

  /** `check_auth` lets in exactly the requests `Admits` describes. */
  lemma CheckAuthAdmits(headers: Headers, a2bBase64: string -> Option<Bytes>)
    ensures CheckAuth(headers, a2bBase64) <==> Admits(headers, a2bBase64)
  {
    if "Authorization" in headers && headers["Authorization"] != "" {
      var auth := headers["Authorization"];
      if |Split(auth, " ")| < 2 {
        NoSchemeToken(auth);
      } else {
        SchemeTokenOfSplit(auth);
        var token := Split(auth, " ")[1];
        if a2bBase64(token).Some? && Decode(a2bBase64(token).value).Some? {
          CredentialFields(Decode(a2bBase64(token).value).value);
        }
      }
    }
  }

  // ---- An independent statement of what is accepted ----

  /** `auth` is a scheme word, one space, a token, and then nothing or more space-led text. */
  predicate SchemeToken(auth: string, scheme: string, token: string, rest: string) {
    auth == scheme + " " + token + rest && ' ' !in scheme && ' ' !in token && (rest == [] || rest[0] == ' ')
  }

  /** The decoded text's first two `:`-separated fields are `admin` and `admin`; more fields may follow. */
  predicate AdminCredentials(text: string) {
    StartsWith(text, AuthUser + ":" + AuthPass) && (|text| == 11 || text[11] == ':')
  }

  /**
   * There is an `Authorization` header, and its token (the text after the
   * first space, up to the next one) base64-decodes to UTF-8 text holding
   * the admin credentials. The scheme word is not looked at.
   */
  ghost predicate Admits(headers: Headers, a2bBase64: string -> Option<Bytes>) {
    "Authorization" in headers &&
    exists scheme, token, rest :: SchemeToken(headers["Authorization"], scheme, token, rest) &&
      a2bBase64(token).Some? && Decode(a2bBase64(token).value).Some? &&
      AdminCredentials(Decode(a2bBase64(token).value).value)
  }

  /** The token is determined: there is only one way to cut `auth` into scheme, token and rest. */
  lemma SchemeTokenUnique(auth: string, scheme: string, token: string, rest: string)
    requires SchemeToken(auth, scheme, token, rest)
    ensures |Split(auth, " ")| >= 2 && Split(auth, " ")[1] == token
  {
    SecondPiece(auth, scheme, token, rest, ' ');
  }

  lemma NoSchemeToken(auth: string)
    requires |Split(auth, " ")| < 2
    ensures forall scheme, token, rest :: !SchemeToken(auth, scheme, token, rest)
  {
    forall scheme, token, rest | SchemeToken(auth, scheme, token, rest) ensures false {
      SchemeTokenUnique(auth, scheme, token, rest);
    }
  }

  lemma SchemeTokenOfSplit(auth: string)
    requires |Split(auth, " ")| >= 2
    ensures forall scheme, token, rest :: SchemeToken(auth, scheme, token, rest) ==> token == Split(auth, " ")[1]
    ensures exists rest :: SchemeToken(auth, Split(auth, " ")[0], Split(auth, " ")[1], rest)
  {
    var p := Split(auth, " ");
    SplitSecond(auth, ' ');
    var rest := auth[|p[0]| + 1 + |p[1]|..];
    NotContainedSingle(p[0], ' ');
    NotContainedSingle(p[1], ' ');
    assert SchemeToken(auth, p[0], p[1], rest);
    forall scheme, token, rest' | SchemeToken(auth, scheme, token, rest') ensures token == p[1] {
      SchemeTokenUnique(auth, scheme, token, rest');
    }
  }

  /** The first two `:`-fields are `admin` and `admin` exactly when the text holds the admin credentials. */
  lemma CredentialFields(text: string)
    ensures (var f := Split(text, ":"); |f| >= 2 && f[0] == AuthUser && f[1] == AuthPass) <==> AdminCredentials(text)
  {
    SplitTwoFields(text, AuthUser, AuthPass, ':');
    assert AuthUser + [':'] + AuthPass == AuthUser + ":" + AuthPass;
  }

  /**
   * Whatever the scheme word, a token that decodes to `admin:admin`, possibly
   * followed by more `:`-separated fields, is let in.
   */
  lemma AdminAccepted(headers: Headers, a2bBase64: string -> Option<Bytes>, scheme: string, token: string, extra: string)
    requires ' ' !in scheme && ' ' !in token
    requires "Authorization" in headers && headers["Authorization"] == scheme + " " + token
    requires a2bBase64(token).Some? && Decode(a2bBase64(token).value) == Some(AuthUser + ":" + AuthPass + extra)
    requires extra == [] || extra[0] == ':'
    ensures CheckAuth(headers, a2bBase64)
  {
    var text := AuthUser + ":" + AuthPass + extra;
    assert headers["Authorization"] == scheme + " " + token + [];
    assert SchemeToken(headers["Authorization"], scheme, token, []);
    assert text[..11] == AuthUser + ":" + AuthPass;
    assert AdminCredentials(text);
    CheckAuthAdmits(headers, a2bBase64);
  }
}
