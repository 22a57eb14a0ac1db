/** The bearer-token gate in front of protected routes
    (server/server/middlewares/auth.middleware.ts). The token library's verify
    call is a parameter: a function from token and secret to the decoded
    claims, or None when it throws. */
module AuthMiddleware {
  import opened Common

  const BearerPrefix: string := "Bearer "

  const MissingTokenMessage: string := "Authorization token is required"
  const ConfigErrorMessage: string := "Server configuration error"
  const InvalidTokenMessage: string := "Invalid or expired token"

  // ---------------------------------------------------------------------
  // String.prototype.split(' ')

  /** `s.split(' ')`: the pieces between single spaces, empty pieces included. */
  function Split(s: string): (pieces: seq<string>)
    ensures |pieces| >= 1
    ensures forall i :: 0 <= i < |pieces| ==> ' ' !in pieces[i]
  {
    if s == [] then [""]
    else
      var rest := Split(s[1..]);
      if s[0] == ' ' then [""] + rest
      else [[s[0]] + rest[0]] + rest[1..]
  }

  /** `pieces.join(' ')`, the inverse of Split. */
  function Join(pieces: seq<string>): string
    requires |pieces| >= 1
  {
    if |pieces| == 1 then pieces[0] else pieces[0] + " " + Join(pieces[1..])
  }

  /** Splitting loses nothing: joining the pieces gives the string back. */
  lemma {:induction false} JoinSplit(s: string)
    ensures Join(Split(s)) == s
  {
    if s != [] {
      var rest := Split(s[1..]);
      JoinSplit(s[1..]);
      if s[0] == ' ' {
        assert ([""] + rest)[1..] == rest;
      } else {
        var p := [[s[0]] + rest[0]] + rest[1..];
        if |rest| > 1 {
          assert p[1..] == rest[1..];
          assert Join(rest) == rest[0] + " " + Join(rest[1..]);
        }
      }
    }
  }

  /** The first piece is the longest prefix without a space. */
  lemma {:induction false} SplitHead(s: string)
    ensures var w := Split(s)[0];
            |w| <= |s| && w == s[..|w|] && (|w| == |s| || s[|w|] == ' ')
    ensures |Split(s)| >= 2 <==> ' ' in s
  {
    if s != [] {
      SplitHead(s[1..]);
      if s[0] != ' ' {
        assert ' ' in s <==> ' ' in s[1..] by {
          assert s == [s[0]] + s[1..];
        }
      }
    }
  }

  /** Splitting a word followed by a space puts that word first and splits the rest. */
  lemma {:induction false} SplitAfterWord(w: string, rest: string)
    requires ' ' !in w
    ensures Split(w + " " + rest) == [w] + Split(rest)
  {
    if w == [] {
      assert w + " " + rest == [' '] + rest;
      assert ([' '] + rest)[1..] == rest;
    } else {
      assert (w + " " + rest)[1..] == w[1..] + " " + rest;
      SplitAfterWord(w[1..], rest);
      assert [w[0]] + w[1..] == w;
    }
  }

  /** `authHeader.split(' ')[1]` on a header that starts with the bearer prefix:
      the text after "Bearer " up to the next space or the end. */
  function BearerToken(header: string): (token: string)
    requires StartsWith(header, BearerPrefix)
    ensures |BearerPrefix| + |token| <= |header|
    ensures token == header[|BearerPrefix|..|BearerPrefix| + |token|]
    ensures ' ' !in token
    ensures |BearerPrefix| + |token| == |header| || header[|BearerPrefix| + |token|] == ' '
  {
    var rest := header[|BearerPrefix|..];
    assert header == "Bearer" + " " + rest;
    SplitAfterWord("Bearer", rest);
    SplitHead(rest);
    Split(header)[1]
  }

  // ---------------------------------------------------------------------
  // The decision

  /** What the gate decides: answer with a status and message, or let the
      request through with the decoded claims. */
  datatype Decision<C> = Reject(status: nat, message: string) | Proceed(user: C)

  /** The header is present and uses the bearer scheme; such a header is
      never falsy, so `!authHeader` adds nothing to the prefix test. */
  predicate HasBearer(header: Option<string>)
    ensures HasBearer(header) ==> Truthy(header) && |BearerPrefix| <= |header.value|
                                  && header.value[..|BearerPrefix|] == BearerPrefix
    ensures header.None? ==> !HasBearer(header)
  {
    header.Some? && StartsWith(header.value, BearerPrefix)
  }

  /** The middleware's decision. The header is checked first (401), then the
      secret (500), then the token (401); only a token the library verifies
      lets the request through, carrying what it decoded. */
  function Gate<C>(header: Option<string>, secret: Option<string>, verify: (string, string) -> Option<C>): (d: Decision<C>)
    ensures d == Reject(401, MissingTokenMessage) <==> !HasBearer(header)
    ensures d == Reject(500, ConfigErrorMessage) <==> HasBearer(header) && !Truthy(secret)
    ensures d == Reject(401, InvalidTokenMessage) <==>
              HasBearer(header) && Truthy(secret) && verify(BearerToken(header.value), secret.value).None?
    ensures d.Proceed? ==>
              HasBearer(header) && Truthy(secret) && verify(BearerToken(header.value), secret.value) == Some(d.user)
    ensures HasBearer(header) && Truthy(secret) && verify(BearerToken(header.value), secret.value).Some? ==>
              d == Proceed(verify(BearerToken(header.value), secret.value).value)
  {
    if !Truthy(header) || !StartsWith(header.value, BearerPrefix) then Reject(401, MissingTokenMessage)
    else if !Truthy(secret) then Reject(500, ConfigErrorMessage)
    else match verify(BearerToken(header.value), secret.value)
      case None => Reject(401, InvalidTokenMessage)
      case Some(user) => Proceed(user)
  }

  // ---------------------------------------------------------------------
  // The middleware on request and response objects

  /** The JSON envelope of an error answer. */
  datatype Envelope = Envelope(success: bool, message: string)

  /** The response: its status, the last JSON body written and how many were written. */
  class Response {
    var statusCode: nat
    var body: Option<Envelope>
    var sends: nat

    constructor ()
      ensures statusCode == 200 && body == None && sends == 0
    {
      statusCode, body, sends := 200, None, 0;
    }

    /** `res.status(status).json(envelope)`. */
    method Send(status: nat, envelope: Envelope)
      modifies this
      ensures statusCode == status && body == Some(envelope) && sends == old(sends) + 1
    {
      statusCode, body, sends := status, Some(envelope), sends + 1;
    }
  }

  /** The request: its Authorization header and the `user` the gate sets. */
  class AuthRequest<C> {
    const authorization: Option<string>
    var user: Option<C>

    constructor (authorization: Option<string>)
      ensures this.authorization == authorization && user == None
    {
      this.authorization := authorization;
      user := None;
    }
  }

  /** authMiddleware: either writes one error response, or sets `user` and
      calls `next` (returns true), never both. */
  method Authenticate<C>(req: AuthRequest<C>, res: Response, secret: Option<string>,
                         verify: (string, string) -> Option<C>)
    returns (nextCalled: bool)
    modifies req, res
    ensures nextCalled <==> res.sends == old(res.sends)
    ensures !nextCalled <==> res.sends == old(res.sends) + 1
    ensures match Gate(req.authorization, secret, verify)
      case Reject(status, message) =>
        && !nextCalled && req.user == old(req.user)
        && res.statusCode == status && res.body == Some(Envelope(false, message))
      case Proceed(user) =>
        && nextCalled && req.user == Some(user)
        && res.statusCode == old(res.statusCode) && res.body == old(res.body)
  {
    var authHeader := req.authorization;
    if !Truthy(authHeader) || !StartsWith(authHeader.value, BearerPrefix) {
      res.Send(401, Envelope(false, MissingTokenMessage));
      return false;
    }
    var token := BearerToken(authHeader.value);
    if !Truthy(secret) {
      res.Send(500, Envelope(false, ConfigErrorMessage));
      return false;
    }
    var decoded := verify(token, secret.value);
    if decoded.None? {
      res.Send(401, Envelope(false, InvalidTokenMessage));
      return false;
    }
    req.user := Some(decoded.value);
    nextCalled := true;
  }
}
