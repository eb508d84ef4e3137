/**
 * The bearer-token gate in front of protected routes: it reads the `Authorization` header,
 * validates the token after `Bearer `, looks up the token's user, and either stores the user
 * in the request context and continues, or answers 401 and aborts.
 */
module Middleware {
  import opened Wrappers
  import opened Model
  import opened Repository
  import opened Jwt
  import opened Service
  import opened Http

  /** The number of spaces in `s`. */
  function Spaces(s: string): (n: nat)
    ensures n <= |s|
  {
    if s == [] then 0 else (if s[0] == ' ' then 1 else 0) + Spaces(s[1..])
  }

  /** Go's `strings.Split(s, " ")`: the pieces between spaces, so n spaces give n + 1 parts. */
  function Split(s: string): (parts: seq<string>)
    ensures |parts| == Spaces(s) + 1
    ensures forall i :: 0 <= i < |parts| ==> ' ' !in parts[i]
  {
    if s == [] then [[]]
    else
      var rest := Split(s[1..]);
      if s[0] == ' ' then [[]] + rest
      else [[s[0]] + rest[0]] + rest[1..]
  }

  /** Go's `strings.Join(parts, " ")`. */
  function Join(parts: seq<string>): (s: string)
    requires |parts| >= 1
  {
    if |parts| == 1 then parts[0] else parts[0] + " " + Join(parts[1..])
  }

  /** Joining the parts of a split gives the string back. */
  lemma {:induction false} JoinSplit(s: string)
    ensures Join(Split(s)) == s
  {
    if s != [] {
      JoinSplit(s[1..]);
      var rest := Split(s[1..]);
      if s[0] == ' ' {
        assert ([[]] + rest)[1..] == rest;
      } else {
        var parts := [[s[0]] + rest[0]] + rest[1..];
        if |rest| > 1 {
          assert parts[1..] == rest[1..];
          assert Join(rest) == rest[0] + " " + Join(rest[1..]);
        }
      }
    }
  }

  /** Splitting a space-free prefix followed by `b` glues the prefix onto the first part of `b`. */
  lemma {:induction false} SplitPrefix(a: string, b: string)
    requires ' ' !in a
    ensures Split(a + b) == [a + Split(b)[0]] + Split(b)[1..]
  {
    var sb := Split(b);
    if a != [] {
      SplitPrefix(a[1..], b);
      var ab := a + b;
      assert ab[0] == a[0] && ab[0] != ' ';
      assert ab[1..] == a[1..] + b;
      var rest := Split(ab[1..]);
      assert rest == [a[1..] + sb[0]] + sb[1..];
      assert Split(ab) == [[ab[0]] + rest[0]] + rest[1..];
      assert rest[1..] == sb[1..];
      assert [a[0]] + (a[1..] + sb[0]) == a + sb[0];
    } else {
      assert a + b == b;
      assert a + sb[0] == sb[0];
      assert sb == [sb[0]] + sb[1..];
    }
  }

  /** Splitting the join of space-free parts gives the parts back: Split and Join are inverse. */
  lemma {:induction false} SplitJoin(parts: seq<string>)
    requires |parts| >= 1
    requires forall i :: 0 <= i < |parts| ==> ' ' !in parts[i]
    ensures Split(Join(parts)) == parts
  {
    if |parts| == 1 {
      SplitPrefix(parts[0], []);
      assert parts[0] + [] == parts[0];
    } else {
      SplitJoin(parts[1..]);
      var tail := Join(parts[1..]);
      var st := " " + tail;
      SplitPrefix(parts[0], st);
      assert st[0] == ' ' && st[1..] == tail;
      assert Split(st) == [[]] + Split(tail);
      assert Split(st)[0] == [] && Split(st)[1..] == parts[1..];
      assert parts[0] + [] == parts[0];
      assert Join(parts) == parts[0] + st;
      assert parts == [parts[0]] + parts[1..];
    }
  }

  /** The header shape the gate accepts: `Bearer`, one space, then a token without spaces (possibly empty). */
  predicate BearerShape(header: string) {
    |header| >= 7 && header[..7] == "Bearer " && ' ' !in header[7..]
  }

  /** The token the gate takes from the header: the second part when the split gives exactly `Bearer` and one more. */
  function BearerToken(header: string): (token: Option<string>)
    ensures token.Some? ==> Spaces(header) == 1 && ' ' !in token.value
  {
    var parts := Split(header);
    if |parts| != 2 || parts[0] != "Bearer" then None else Some(parts[1])
  }

  /** A header yields a token iff it has the bearer shape, and the token is exactly the text after the single space. */
  lemma BearerTokenExactly(header: string)
    ensures BearerToken(header).Some? <==> BearerShape(header)
    ensures BearerToken(header).Some? ==> BearerToken(header).value == header[7..]
  {
    if BearerShape(header) {
      var t := header[7..];
      assert Join(["Bearer", t]) == "Bearer" + " " + Join([t]);
      assert header == "Bearer" + " " + t;
      SplitJoin(["Bearer", t]);
    }
    var parts := Split(header);
    if |parts| == 2 && parts[0] == "Bearer" {
      JoinSplit(header);
      assert parts[1..] == [parts[1]];
      assert header == "Bearer" + " " + parts[1];
    }
  }

  /** Two spaces after `Bearer` give three parts, so the header is refused. */
  lemma DoubleSpaceRejected()
    ensures BearerToken("Bearer  t") == None
  {
    BearerTokenExactly("Bearer  t");
    assert "Bearer  t"[7..][0] == ' ';
  }

  /** The scheme keyword is compared case-sensitively. */
  lemma LowerCaseSchemeRejected()
    ensures BearerToken("bearer t") == None
  {
    BearerTokenExactly("bearer t");
    assert "bearer t"[..7][0] != "Bearer "[0];
  }

  /** A scheme keyword without a space is one part only. */
  lemma MissingTokenRejected()
    ensures BearerToken("Bearer") == None
  {
    BearerTokenExactly("Bearer");
  }

  /** `Bearer ` with nothing after the space yields the empty token, which is passed on to validation. */
  lemma EmptyTokenAccepted()
    ensures BearerToken("Bearer ") == Some("")
  {
    BearerTokenExactly("Bearer ");
    assert "Bearer "[..7] == "Bearer ";
  }

  /** Why the gate refused a request; each is answered with 401. */
  datatype Rejection = HeaderRequired | BadHeaderFormat | InvalidOrExpiredToken | UserMissing

  /** The gate's decision: refuse, or continue with the user and the token's subject. */
  datatype GateOutcome = Reject(reason: Rejection) | Proceed(user: User, userID: nat)

  /** The decision chain of `RequireAuth` on a table holding `rows`. */
  function Gate(header: string, codec: TokenCodec, now: nat, rows: seq<User>, fault: Option<nat>): (g: GateOutcome)
    ensures g == Reject(HeaderRequired) <==> header == ""
    ensures g == Reject(BadHeaderFormat) <==> header != "" && BearerToken(header).None?
    ensures g.Proceed? ==>
      && BearerToken(header).Some?
      && ValidateJWTToken(BearerToken(header).value, codec, now) == Success(g.userID)
      && fault.None? && Lookup(rows, g.userID) == Some(g.user)
  {
    if header == "" then Reject(HeaderRequired)
    else
      var parts := Split(header);
      if |parts| != 2 || parts[0] != "Bearer" then Reject(BadHeaderFormat)
      else
        match ValidateJWTToken(parts[1], codec, now)
        case Failure(_) => Reject(InvalidOrExpiredToken)
        case Success(id) =>
          match UserByID(rows, id, fault)
          case Failure(_) => Reject(UserMissing)
          case Success(u) => Proceed(u, id)
  }

  /** A header without the bearer shape is refused before any token is validated or any user looked up. */
  lemma GateRejectsShape(header: string, codec: TokenCodec, now: nat, rows: seq<User>, fault: Option<nat>)
    requires !BearerShape(header)
    ensures Gate(header, codec, now, rows, fault) == Reject(if header == "" then HeaderRequired else BadHeaderFormat)
  {
    BearerTokenExactly(header);
  }

  /** A token that fails validation is refused without any user lookup: the outcome does not depend on the table. */
  lemma GateInvalidTokenSkipsLookup(header: string, codec: TokenCodec, now: nat, rows: seq<User>, fault: Option<nat>)
    requires BearerShape(header)
    requires ValidateJWTToken(header[7..], codec, now).Failure?
    ensures Gate(header, codec, now, rows, fault) == Reject(InvalidOrExpiredToken)
  {
    BearerTokenExactly(header);
  }

  /**
   * The gate lets a request through exactly when the header has the bearer shape, the text
   * after the space validates, and the token's subject is found; it then carries that user
   * and that subject.
   */
  lemma GateProceedsExactly(header: string, codec: TokenCodec, now: nat, rows: seq<User>, fault: Option<nat>)
    ensures Gate(header, codec, now, rows, fault).Proceed? <==>
      && BearerShape(header)
      && ValidateJWTToken(header[7..], codec, now).Success?
      && fault.None?
      && HasID(rows, ValidateJWTToken(header[7..], codec, now).value)
    ensures Gate(header, codec, now, rows, fault).Proceed? ==>
      && ValidateJWTToken(header[7..], codec, now) == Success(Gate(header, codec, now, rows, fault).userID)
      && Lookup(rows, Gate(header, codec, now, rows, fault).userID) == Some(Gate(header, codec, now, rows, fault).user)
  {
    BearerTokenExactly(header);
    if BearerShape(header) && header != "" {
      match ValidateJWTToken(header[7..], codec, now)
      case Failure(_) =>
      case Success(id) =>
        if fault.None? && HasID(rows, id) {
          assert UserByID(rows, id, fault) == Success(Lookup(rows, id).value);
        }
    }
  }

  /** A value stored in the request context. */
  datatype CtxValue = UserValue(user: User) | UserIDValue(id: nat)

  /** A written response: the status and the error body's reason. */
  datatype Reply = Reply(status: nat, reason: Rejection)

  /** The part of `gin.Context` the gate uses: the key store, the written response, the abort flag and `Next`. */
  class Context {
    var keys: map<string, CtxValue>
    var written: Option<Reply>
    var aborted: bool
    /** How many times `Next` ran the rest of the handler chain. */
    var nextCalls: nat

    constructor ()
      ensures keys == map[] && written == None && !aborted && nextCalls == 0
    {
      keys, written, aborted, nextCalls := map[], None, false, 0;
    }

    method JSON(status: nat, reason: Rejection)
      modifies this
      ensures written == Some(Reply(status, reason))
      ensures keys == old(keys) && aborted == old(aborted) && nextCalls == old(nextCalls)
    {
      written := Some(Reply(status, reason));
    }

    method Abort()
      modifies this
      ensures aborted
      ensures keys == old(keys) && written == old(written) && nextCalls == old(nextCalls)
    {
      aborted := true;
    }

    method Set(key: string, value: CtxValue)
      modifies this
      ensures keys == old(keys)[key := value]
      ensures written == old(written) && aborted == old(aborted) && nextCalls == old(nextCalls)
    {
      keys := keys[key := value];
    }

    method Next()
      modifies this
      ensures nextCalls == old(nextCalls) + 1
      ensures keys == old(keys) && written == old(written) && aborted == old(aborted)
    {
      nextCalls := nextCalls + 1;
    }
  }

  /** The middleware over one service. */
  class AuthMiddleware {
    const service: AuthService

    constructor (service: AuthService)
      ensures this.service == service
    {
      this.service := service;
    }

    /**
     * `RequireAuth`, run on one request: on refusal the context holds a 401 reply and is
     * aborted, and Next does not run; on success "user" and "userID" are set and Next runs once.
     */
    method RequireAuth(c: Context, header: string, now: nat, codec: TokenCodec, fault: Option<nat>)
      modifies c
      ensures match Gate(header, codec, now, service.repo.rows, fault)
        case Reject(why) =>
          && c.written == Some(Reply(StatusUnauthorized, why)) && c.aborted
          && c.keys == old(c.keys) && c.nextCalls == old(c.nextCalls)
        case Proceed(u, id) =>
          && c.keys == old(c.keys)["user" := UserValue(u)]["userID" := UserIDValue(id)]
          && c.nextCalls == old(c.nextCalls) + 1
          && c.written == old(c.written) && c.aborted == old(c.aborted)
    {
      if header == "" {
        c.JSON(StatusUnauthorized, HeaderRequired);
        c.Abort();
        return;
      }
      var parts := Split(header);
      if |parts| != 2 || parts[0] != "Bearer" {
        c.JSON(StatusUnauthorized, BadHeaderFormat);
        c.Abort();
        return;
      }
      var userID := ValidateJWTToken(parts[1], codec, now);
      if userID.Failure? {
        c.JSON(StatusUnauthorized, InvalidOrExpiredToken);
        c.Abort();
        return;
      }
      var user := service.GetUserByID(userID.value, fault);
      if user.Failure? {
        c.JSON(StatusUnauthorized, UserMissing);
        c.Abort();
        return;
      }
      c.Set("user", UserValue(user.value));
      c.Set("userID", UserIDValue(userID.value));
      c.Next();
    }
  }
}
