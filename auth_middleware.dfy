/** The bearer-token middleware: it reads the `Authorization: Bearer <token>`
    request header (section 2.1 of RFC 6750), verifies the token, and either
    answers 401 or attaches the caller's identity and passes the request on. */
module AuthMiddleware {
  import opened Http
  import AuthController

  const BearerPrefix := "Bearer "
  const TokenMissing := "Unauthorized: Token missing."
  const TokenInvalid := "Unauthorized: Token invalid."

  /** `s.startsWith(prefix)`: case-sensitive; `s` is the prefix followed by the
      rest of `s`. */
  predicate StartsWith(s: string, prefix: string)
    ensures StartsWith(s, prefix) <==> |prefix| <= |s| && s == prefix + s[|prefix|..]
  {
    |prefix| <= |s| && s[..|prefix|] == prefix
  }

  /** `s.split(sep)`: the pieces between separators, empty pieces included. */
  function Split(s: string, sep: char): (fields: seq<string>)
    ensures |fields| >= 1
    ensures forall i :: 0 <= i < |fields| ==> sep !in fields[i]
    decreases |s|
  {
    if |s| == 0 then [""]
    else if s[0] == sep then [""] + Split(s[1..], sep)
    else
      var rest := Split(s[1..], sep);
      [[s[0]] + rest[0]] + rest[1..]
  }

  /** `fields.join(sep)`. */
  function Join(fields: seq<string>, sep: char): string
    requires |fields| >= 1
    decreases |fields|
  {
    if |fields| == 1 then fields[0] else fields[0] + [sep] + Join(fields[1..], sep)
  }

  /** Joining the pieces again gives back the split string. */
  lemma {:induction false} JoinSplit(s: string, sep: char)
    ensures Join(Split(s, sep), sep) == s
    decreases |s|
  {
    if |s| == 0 {
    } else if s[0] == sep {
      JoinSplit(s[1..], sep);
      assert s == [sep] + s[1..];
    } else {
      JoinSplit(s[1..], sep);
      var rest := Split(s[1..], sep);
      if |rest| == 1 {
        assert s == [s[0]] + rest[0];
      } else {
        assert Join(rest, sep) == rest[0] + [sep] + Join(rest[1..], sep);
        assert s == [s[0]] + s[1..];
      }
    }
  }

  /** Splitting after a separator-free piece and a separator. */
  lemma {:induction false} SplitAfter(a: string, b: string, sep: char)
    requires sep !in a
    ensures Split(a + [sep] + b, sep) == [a] + Split(b, sep)
    decreases |a|
  {
    if |a| == 0 {
      assert a + [sep] + b == [sep] + b;
    } else {
      SplitAfter(a[1..], b, sep);
      assert (a + [sep] + b)[1..] == a[1..] + [sep] + b;
      assert [a[0]] + a[1..] == a;
    }
  }

  /** Splitting joined separator-free pieces gives the pieces back. */
  lemma {:induction false} SplitJoin(fields: seq<string>, sep: char)
    requires |fields| >= 1
    requires forall i :: 0 <= i < |fields| ==> sep !in fields[i]
    ensures Split(Join(fields, sep), sep) == fields
    decreases |fields|
  {
    if |fields| == 1 {
      NoSeparator(fields[0], sep);
    } else {
      SplitJoin(fields[1..], sep);
      SplitAfter(fields[0], Join(fields[1..], sep), sep);
    }
  }

  /** A string without separators splits into itself. */
  lemma {:induction false} NoSeparator(s: string, sep: char)
    requires sep !in s
    ensures Split(s, sep) == [s]
    decreases |s|
  {
    if |s| > 0 {
      NoSeparator(s[1..], sep);
      assert [s[0]] + s[1..] == s;
    }
  }

  /** The text of `s` before its first `sep` (all of `s` when it has none). */
  function UpTo(s: string, sep: char): (r: string)
    ensures |r| <= |s| && r == s[..|r|]
    ensures sep !in r
    ensures |r| < |s| ==> s[|r|] == sep
    decreases |s|
  {
    if |s| == 0 || s[0] == sep then [] else [s[0]] + UpTo(s[1..], sep)
  }

  /** The first piece of a split is the text before the first separator. */
  lemma {:induction false} SplitHead(s: string, sep: char)
    ensures Split(s, sep)[0] == UpTo(s, sep)
    decreases |s|
  {
    if |s| > 0 && s[0] != sep {
      SplitHead(s[1..], sep);
    }
  }

  /** `authHeader.split(' ')[1]` for a header that starts with the prefix: the
      text after "Bearer " up to the next space. */
  function BearerToken(header: string): (token: string)
    requires StartsWith(header, BearerPrefix)
    ensures token == UpTo(header[|BearerPrefix|..], ' ')
  {
    var rest := header[|BearerPrefix|..];
    assert header == "Bearer" + [' '] + rest;
    SplitAfter("Bearer", rest, ' ');
    SplitHead(rest, ' ');
    Split(header, ' ')[1]
  }

  lemma BearerTokenExamples()
    ensures BearerToken("Bearer ") == ""
    ensures BearerToken("Bearer a b") == "a"
    ensures BearerToken("Bearer  a") == ""
  {
    assert "Bearer a b"[7..] == "a b";
    assert "Bearer  a"[7..] == " a";
  }

  /** What the middleware decides for one request. */
  datatype Outcome = Reject(message: string) | Accept(id: int)

  /** `authenticate` as a decision: 401 "Token missing." when the header is
      absent or lacks the case-sensitive prefix, 401 "Token invalid." when
      `verify` throws on the extracted token, the decoded id otherwise. */
  function Decide(header: Option<string>, verify: string -> Option<int>): (v: Outcome)
    ensures v == Reject(TokenMissing) <==> header.None? || !StartsWith(header.value, BearerPrefix)
    ensures v.Accept? <==>
              header.Some? && StartsWith(header.value, BearerPrefix)
              && verify(UpTo(header.value[|BearerPrefix|..], ' ')).Some?
    ensures v.Accept? ==> verify(UpTo(header.value[|BearerPrefix|..], ' ')) == Some(v.id)
    ensures v.Reject? ==> v.message in {TokenMissing, TokenInvalid}
  {
    if header.None? || !StartsWith(header.value, BearerPrefix) then Reject(TokenMissing)
    else
      match verify(BearerToken(header.value))
      case None => Reject(TokenInvalid)
      case Some(id) => Accept(id)
  }

  /** An unexpired token the login handler issued, sent back in the header, is
      accepted for the id it was issued for (expiry is not modelled). */
  lemma IssuedTokenIsAccepted(t: AuthController.Tokens, id: int)
    requires AuthController.Consistent(t)
    ensures Decide(Some(BearerPrefix + t.sign(id)), t.verify) == Accept(id)
  {
    var header := BearerPrefix + t.sign(id);
    assert header[|BearerPrefix|..] == t.sign(id);
    NoSeparator(t.sign(id), ' ');
    SplitHead(t.sign(id), ' ');
  }

  /** One request as the middleware sees it: its header, the identity it may
      attach, the response it may send and the number of times it passed the
      request on. */
  class Exchange {
    const authorization: Option<string>
    var user: Option<int>
    var response: Option<Response<()>>
    var nextCalls: nat

    constructor (authorization: Option<string>)
      ensures this.authorization == authorization
      ensures user == None && response == None && nextCalls == 0
    {
      this.authorization := authorization;
      user := None;
      response := None;
      nextCalls := 0;
    }
  }

  /** `authenticate`: on a rejection it sends 401 and neither attaches an
      identity nor calls `next`; on success it attaches `{ id }` and calls
      `next` once, sending nothing. */
  method Authenticate(x: Exchange, verify: string -> Option<int>)
    modifies x
    ensures match Decide(x.authorization, verify)
            case Reject(message) =>
              x.response == Some(Failure(401, message)) && x.user == old(x.user) && x.nextCalls == old(x.nextCalls)
            case Accept(id) =>
              x.user == Some(id) && x.nextCalls == old(x.nextCalls) + 1 && x.response == old(x.response)
  {
    var header := x.authorization;
    if header.None? || !StartsWith(header.value, BearerPrefix) {
      x.response := Some(Failure(401, TokenMissing));
      return;
    }
    var token := BearerToken(header.value);
    var decoded := verify(token);
    if decoded.None? {
      x.response := Some(Failure(401, TokenInvalid));
      return;
    }
    x.user := Some(decoded.value);
    x.nextCalls := x.nextCalls + 1;
  }

  /** On a fresh request exactly one thing happens: a 401 response, or a single
      call of `next` with the identity attached. */
  method AuthenticateRequest(header: Option<string>, verify: string -> Option<int>) returns (x: Exchange)
    ensures x.authorization == header
    ensures (x.response.Some? && x.response.value.status == 401 && x.nextCalls == 0 && x.user.None?)
         || (x.response.None? && x.nextCalls == 1 && x.user.Some?)
  {
    x := new Exchange(header);
    Authenticate(x, verify);
  }
}
