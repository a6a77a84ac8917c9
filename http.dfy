/**
 * What a handler sends back through Express: a status, a JSON body and the
 * cookies it sets; and what a browser's cookie jar makes of those cookies.
 */
module Http {
  import opened Js

  /** `res.cookie(name, value, { maxAge })`; `maxAge` in milliseconds. */
  datatype Cookie = Cookie(name: string, value: string, maxAge: nat)

  /** `res.status(status).json(body)`, after the cookies the handler set. */
  datatype Response = Response(status: nat, body: Json, cookies: seq<Cookie>)

  /** The cookie that carries the session token. */
  const SessionCookieName: string := "jwt"

  /** How long a session cookie lives: seven days, in milliseconds. */
  const SessionMaxAge: nat := 7 * 24 * 60 * 60 * 1000

  /** The cookie `generateToken` sets for a freshly signed token. */
  function SessionCookie(token: string): (c: Cookie)
    ensures c.name == SessionCookieName && c.value == token && c.maxAge > 0
  {
    Cookie(SessionCookieName, token, SessionMaxAge)
  }

  /** `res.status(status).json({ message })` with no cookie. */
  function Reply(status: nat, message: string): (r: Response)
    ensures r.status == status && r.cookies == []
    ensures r.body.JObj? && r.body.fields.Keys == {"message"} && r.body.fields["message"] == JStr(message)
  {
    Response(status, JObj(map["message" := JStr(message)]), [])
  }

  /** The message every catch block answers with. */
  const ServerErrorMessage: string := "Server error"

  /** The generic 500 reply of every catch block. */
  function ServerError(): (r: Response)
    ensures r.status == 500 && r.cookies == []
    ensures r.body.JObj? && r.body.fields.Keys == {"message"} && r.body.fields["message"] == JStr(ServerErrorMessage)
  {
    Reply(500, ServerErrorMessage)
  }

  /** A browser's cookies for the API's origin, by name. */
  type Jar = map<string, string>

  /** A cookie with a positive lifetime is stored; one with `maxAge` 0 deletes its name. */
  function ApplyCookie(jar: Jar, c: Cookie): (r: Jar)
    ensures c.maxAge == 0 ==> c.name !in r
    ensures c.maxAge > 0 ==> c.name in r && r[c.name] == c.value
    ensures forall n :: n != c.name ==> (n in r <==> n in jar) && (n in r ==> r[n] == jar[n])
  {
    if c.maxAge == 0 then jar - {c.name} else jar[c.name := c.value]
  }

  /**
   * The jar after a response's cookies, in the order they were set: the
   * last cookie decides its name.
   */
  function ApplyCookies(jar: Jar, cs: seq<Cookie>): (r: Jar)
    ensures |cs| > 0 && cs[|cs| - 1].maxAge > 0 ==>
      cs[|cs| - 1].name in r && r[cs[|cs| - 1].name] == cs[|cs| - 1].value
    ensures |cs| > 0 && cs[|cs| - 1].maxAge == 0 ==> cs[|cs| - 1].name !in r
    decreases |cs|
  {
    if cs == [] then jar else ApplyCookies(ApplyCookie(jar, cs[0]), cs[1..])
  }

  /** A name that no cookie of the response mentions keeps its value in the jar, or stays absent. */
  lemma {:induction false} ApplyCookiesKeepsUnmentioned(jar: Jar, cs: seq<Cookie>, n: string)
    requires forall i :: 0 <= i < |cs| ==> cs[i].name != n
    ensures var r := ApplyCookies(jar, cs);
      (n in r <==> n in jar) && (n in r ==> r[n] == jar[n])
    decreases |cs|
  {
    if cs != [] {
      ApplyCookiesKeepsUnmentioned(ApplyCookie(jar, cs[0]), cs[1..], n);
    }
  }
}
