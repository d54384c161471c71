/**
 * The `verifyToken` middleware: the bearer token is the second word of the
 * `Authorization` header; no token gives 401, a token the identity service
 * rejects gives 403, otherwise the request proceeds with the verified email.
 */
module Auth {
  import opened Wrappers

  /** `s.split(' ')`: the pieces between single spaces, empty pieces included. */
  function Split(s: string): (r: seq<string>)
    ensures |r| >= 1
    ensures forall i :: 0 <= i < |r| ==> ' ' !in r[i]
  {
    if s == [] then [""]
    else
      var rest := Split(s[1..]);
      if s[0] == ' ' then [""] + rest
      else [[s[0]] + rest[0]] + rest[1..]
  }

  /** `pieces.join(' ')`. */
  function Join(pieces: seq<string>): string
    requires |pieces| >= 1
  {
    if |pieces| == 1 then pieces[0] else pieces[0] + " " + Join(pieces[1..])
  }

  /** Splitting loses nothing: joining the pieces with single spaces gives the header back. */
  lemma {:induction false} JoinSplit(s: string)
    ensures Join(Split(s)) == s
  {
    if s != [] {
      var rest := Split(s[1..]);
      JoinSplit(s[1..]);
      if s[0] == ' ' {
        assert Split(s) == [""] + rest;
        assert Split(s)[1..] == rest;
      } else {
        assert s == [s[0]] + s[1..];
        if |rest| > 1 {
          assert Split(s)[1..] == rest[1..];
        }
      }
    }
  }

  /** A word without spaces is a single piece. */
  lemma {:induction false} SplitWord(w: string)
    requires ' ' !in w
    ensures Split(w) == [w]
  {
    if w != [] {
      assert w[0] in w;
      assert forall c :: c in w[1..] ==> c in w;
      SplitWord(w[1..]);
      assert w == [w[0]] + w[1..];
    }
  }

  /** A space-free prefix followed by a space starts a new piece. */
  lemma {:induction false} SplitAfterWord(w: string, rest: string)
    requires ' ' !in w
    ensures Split(w + " " + rest) == [w] + Split(rest)
  {
    if w == [] {
      assert w + " " + rest == [' '] + rest;
      assert (w + " " + rest)[1..] == rest;
    } else {
      assert w[0] in w;
      assert forall c :: c in w[1..] ==> c in w;
      SplitAfterWord(w[1..], rest);
      assert (w + " " + rest)[1..] == w[1..] + " " + rest;
      assert w == [w[0]] + w[1..];
    }
  }

  /** `authorization?.split(' ')[1]` when it is truthy; None for a missing header, a missing second word or an empty one. */
  function BearerToken(header: Option<string>): (t: Option<string>)
    ensures t.Some? ==> t.value != "" && ' ' !in t.value
    ensures t.Some? <==> header.Some? && |Split(header.value)| >= 2 && Split(header.value)[1] != ""
    ensures t.Some? ==> t.value == Split(header.value)[1]
  {
    if header.None? then None
    else
      var pieces := Split(header.value);
      if |pieces| >= 2 && pieces[1] != "" then Some(pieces[1]) else None
  }

  /** The usual `Bearer <token>` header yields the token. */
  lemma BearerOfScheme(scheme: string, token: string)
    requires ' ' !in scheme && ' ' !in token && token != ""
    ensures BearerToken(Some(scheme + " " + token)) == Some(token)
  {
    SplitAfterWord(scheme, token);
    SplitWord(token);
  }

  /** The middleware's outcome: proceed as the verified email, or answer with an error status. */
  datatype Outcome = Authenticated(email: string) | Rejected(status: int)

  /**
   * `verifyToken`: `verify` stands for the identity service's `verifyIdToken`
   * (None when it throws), reduced to the email of the decoded token.
   */
  function VerifyToken(header: Option<string>, verify: string -> Option<string>): (r: Outcome)
    ensures r == Rejected(401) <==> BearerToken(header).None?
    ensures r == Rejected(403) <==> BearerToken(header).Some? && verify(BearerToken(header).value).None?
    ensures r.Authenticated? <==> BearerToken(header).Some? && verify(BearerToken(header).value).Some?
    ensures r.Authenticated? ==> verify(BearerToken(header).value) == Some(r.email)
  {
    match BearerToken(header)
    case None => Rejected(401)
    case Some(token) =>
      match verify(token)
      case None => Rejected(403)
      case Some(email) => Authenticated(email)
  }
}
