/**
 * Bearer-token gatekeeping: reading the token out of the Authorization header,
 * checking it with an opaque verifier, role lists, and the claim set a login
 * signs. The JWT signer and verifier are parameters; secrets, expiry times and
 * the cryptography are outside the model.
 */
module Tokens {
  import opened Wrappers
  import opened Js
  import opened Schema

  /** `s.split(' ')`: every single space separates two fields, so fields may be empty. */
  function SplitSpace(s: string): (r: seq<string>)
    ensures |r| >= 1
    ensures forall i :: 0 <= i < |r| ==> ' ' !in r[i]
  {
    if |s| == 0 then [""]
    else if s[0] == ' ' then [""] + SplitSpace(s[1..])
    else
      var rest := SplitSpace(s[1..]);
      [[s[0]] + rest[0]] + rest[1..]
  }

  /** `parts.join(' ')` */
  function JoinSpace(parts: seq<string>): string
    requires |parts| >= 1
  {
    if |parts| == 1 then parts[0] else parts[0] + " " + JoinSpace(parts[1..])
  }

  /** Splitting loses nothing: joining the fields back gives the header. */
  lemma {:induction false} SplitJoin(s: string)
    ensures JoinSpace(SplitSpace(s)) == s
  {
    if |s| == 0 {
    } else if s[0] == ' ' {
      SplitJoin(s[1..]);
      assert ([""] + SplitSpace(s[1..]))[1..] == SplitSpace(s[1..]);
      assert s == "" + " " + s[1..];
    } else {
      var rest := SplitSpace(s[1..]);
      SplitJoin(s[1..]);
      var r := [[s[0]] + rest[0]] + rest[1..];
      assert r[1..] == rest[1..];
      if |rest| == 1 {
        assert s == [s[0]] + s[1..];
      } else {
        assert JoinSpace(rest) == rest[0] + " " + JoinSpace(rest[1..]);
        assert s == [s[0]] + s[1..];
      }
    }
  }

  /** A word without spaces followed by a space and more text splits at that space. */
  lemma {:induction false} SplitAtFirstSpace(w: string, rest: string)
    requires ' ' !in w
    ensures SplitSpace(w + " " + rest) == [w] + SplitSpace(rest)
    decreases |w|
  {
    if |w| == 0 {
      assert w + " " + rest == [' '] + rest;
      assert (w + " " + rest)[1..] == rest;
    } else {
      assert (w + " " + rest)[0] == w[0];
      assert (w + " " + rest)[1..] == w[1..] + " " + rest;
      SplitAtFirstSpace(w[1..], rest);
      assert w == [w[0]] + w[1..];
    }
  }

  lemma {:induction false} SplitWithoutSpace(w: string)
    requires ' ' !in w
    ensures SplitSpace(w) == [w]
    decreases |w|
  {
    if |w| > 0 {
      assert ' ' !in w[1..] by {
        forall k | 0 <= k < |w[1..]| ensures w[1..][k] != ' ' { assert w[1..][k] == w[k + 1]; }
      }
      SplitWithoutSpace(w[1..]);
      assert w == [w[0]] + w[1..];
    }
  }

  /**
   * `authHeader && authHeader.split(' ')[1]`: a missing or empty header
   * short-circuits; otherwise the second field, if there is one.
   */
  function TokenOf(header: Option<string>): Option<string> {
    if !TruthyStr(header) then None
    else
      var fields := SplitSpace(header.value);
      if |fields| >= 2 then Some(fields[1]) else None
  }

  /** The scheme word is never inspected: any space-free word before the token will do. */
  lemma AnySchemeReachesToken(scheme: string, token: string)
    requires ' ' !in scheme && ' ' !in token
    ensures TokenOf(Some(scheme + " " + token)) == Some(token)
  {
    SplitAtFirstSpace(scheme, token);
    SplitWithoutSpace(token);
  }

  /** A header without any space carries no token. */
  lemma NoSpaceNoToken(h: string)
    requires ' ' !in h
    ensures TokenOf(Some(h)) == None
  {
    SplitWithoutSpace(h);
  }

  /** `"Bearer "` with nothing, or a double space, yields an empty second field. */
  lemma EmptySecondField(scheme: string, rest: string)
    requires ' ' !in scheme
    requires |rest| == 0 || rest[0] == ' '
    ensures TokenOf(Some(scheme + " " + rest)) == Some("")
  {
    SplitAtFirstSpace(scheme, rest);
    if |rest| > 0 {
      assert rest == "" + " " + rest[1..];
      SplitAtFirstSpace("", rest[1..]);
    }
  }

  /** The payload `jwt.verify` hands to the handler as `req.user`. */
  datatype Claims = Claims(id: int, username: string, role: string, studentId: Option<int>, teacherId: Option<int>)

  datatype AuthResult = Unauthorized | Forbidden | Proceed(claims: Claims)

  function HttpStatus(a: AuthResult): int {
    match a
    case Unauthorized => 401
    case Forbidden => 403
    case Proceed(_) => 200
  }

  /**
   * `authenticateToken`: no usable token gives 401, a token the verifier
   * rejects gives 403, otherwise the verified claims go on to the handler.
   */
  function Authenticate(header: Option<string>, verify: string -> Option<Claims>): (r: AuthResult)
    ensures r.Unauthorized? <==> !TruthyStr(TokenOf(header))
    ensures r.Forbidden? <==> TruthyStr(TokenOf(header)) && verify(TokenOf(header).value).None?
    ensures r.Proceed? ==> verify(TokenOf(header).value) == Some(r.claims)
  {
    var token := TokenOf(header);
    if !TruthyStr(token) then Unauthorized
    else
      match verify(token.value)
      case None => Forbidden
      case Some(c) => Proceed(c)
  }

  /** `requireRole(roles)`: the handler runs only for a role in the list. */
  predicate RequireRole(roles: seq<string>, c: Claims) {
    c.role in roles
  }

  lemma TeacherOrAdminGate(c: Claims)
    ensures RequireRole(["teacher", "admin"], c) <==> c.role == "teacher" || c.role == "admin"
  {
  }

  /** The outcome of `authenticateToken` followed by one gate middleware. */
  datatype Access = Refused(status: int) | Admitted(claims: Claims)

  /**
   * `authenticateToken, gate, handler`: 401 without a token, 403 for a token
   * the verifier rejects or a caller the gate turns away. The gate stands for
   * `requireRole(...)` or for a middleware the routes import but no module
   * defines.
   */
  function Guard(header: Option<string>, verify: string -> Option<Claims>, admits: Claims -> bool): (r: Access)
    ensures r == Refused(401) <==> Authenticate(header, verify).Unauthorized?
    ensures r == Refused(403) <==>
      Authenticate(header, verify).Forbidden? || (Authenticate(header, verify).Proceed? && !admits(Authenticate(header, verify).claims))
    ensures r.Admitted? <==> Authenticate(header, verify).Proceed? && admits(Authenticate(header, verify).claims)
    ensures r.Admitted? ==> r.claims == Authenticate(header, verify).claims
  {
    match Authenticate(header, verify)
    case Unauthorized => Refused(401)
    case Forbidden => Refused(403)
    case Proceed(c) => if admits(c) then Admitted(c) else Refused(403)
  }

  /** The expiry option every token is signed with. */
  const ExpiresIn: string := "24h"

  /** The claim set `generateToken` signs for a users row. */
  function ClaimsOf(u: User): (c: Claims)
    ensures c.id == u.id && c.username == u.username && ParseRole(c.role) == Some(u.role)
    ensures c.studentId == u.studentId && c.teacherId == u.teacherId
  {
    Claims(u.id, u.username, RoleName(u.role), u.studentId, u.teacherId)
  }

  /** `generateToken`: sign the claim set with the 24-hour expiry. */
  function GenerateToken(u: User, sign: (Claims, string) -> string): string {
    sign(ClaimsOf(u), ExpiresIn)
  }

  /**
   * A token issued at login and sent back as `Bearer <token>` reaches the
   * handler with the user's own claims, given a verifier that accepts what the
   * signer produced (compact JWTs contain no spaces).
   */
  lemma IssuedTokenAuthenticates(u: User, sign: (Claims, string) -> string, verify: string -> Option<Claims>)
    requires GenerateToken(u, sign) != "" && ' ' !in GenerateToken(u, sign)
    requires verify(GenerateToken(u, sign)) == Some(ClaimsOf(u))
    ensures Authenticate(Some("Bearer " + GenerateToken(u, sign)), verify) == Proceed(ClaimsOf(u))
  {
    var t := GenerateToken(u, sign);
    assert "Bearer " + t == "Bearer" + " " + t;
    AnySchemeReachesToken("Bearer", t);
  }
}
