/**
 * The admin API: the name rule on creation, and the mutations that revoke
 * the caller's own bearer token (section 2.1 of RFC 6750) once they have
 * committed, by writing its `jti` to the blacklist until its `exp` (sections
 * 4.1.7 and 4.1.4 of RFC 7519).
 */
module AdminApi {
  import opened Wrappers
  import opened Entities
  import opened CacheKeys
  import opened KeyValue
  import opened Query
  import opened AdminCache
  import opened JwtGuard

  /** A response: the status code and the admins it carries. */
  datatype Reply = Reply(code: int, data: seq<Admin>)

  /**
   * What decoding a token (without verifying it) yields: a falsy value, a
   * value that is not an object, or the claims object, in which `jti` and
   * `exp` may be missing.
   */
  datatype Decoded = Falsy | NotAnObject | Claims(jti: Option<string>, exp: Option<int>)

  /** A blacklist write: the `jti` to revoke and the expiry to give its entry. */
  datatype Revocation = Revocation(jti: string, ttl: int)

  /** A character of the class `[a-zA-Z0-9_]`. */
  predicate NameChar(c: char) {
    'a' <= c <= 'z' || 'A' <= c <= 'Z' || '0' <= c <= '9' || c == '_'
  }

  /** The name rule `^[a-zA-Z0-9_]{5,20}$`. */
  predicate ValidAdminName(name: string) {
    5 <= |name| <= 20 && forall i :: 0 <= i < |name| ==> NameChar(name[i])
  }

  /** The parts `parts` joined back with `sep` between neighbours. */
  function Join(parts: seq<string>, sep: char): string
    requires |parts| >= 1
    decreases |parts|
  {
    if |parts| == 1 then parts[0] else parts[0] + [sep] + Join(parts[1..], sep)
  }

  /**
   * JavaScript `s.split(sep)` for a one-character separator: the pieces
   * between separators, empty ones included.
   */
  function Split(s: string, sep: char): (parts: seq<string>)
    ensures |parts| >= 1
    ensures forall i :: 0 <= i < |parts| ==> sep !in parts[i]
    ensures Join(parts, sep) == s
    decreases |s|
  {
    if s == [] then [""]
    else
      var rest := Split(s[1..], sep);
      if s[0] == sep then
        assert ([""] + rest)[1..] == rest;
        [""] + rest
      else
        assert s == [s[0]] + s[1..];
        assert |rest| > 1 ==> rest == [rest[0]] + rest[1..];
        [[s[0]] + rest[0]] + rest[1..]
  }

  /** A piece with no separator splits into itself. */
  lemma {:induction false} SplitWithoutSeparator(w: string, sep: char)
    requires sep !in w
    ensures Split(w, sep) == [w]
    decreases |w|
  {
    if w != [] {
      SplitWithoutSeparator(w[1..], sep);
      assert [w[0]] + w[1..] == w;
    }
  }

  /** A separator-free first piece splits off the front. */
  lemma {:induction false} SplitFirstPiece(w: string, sep: char, r: string)
    requires sep !in w
    ensures Split(w + [sep] + r, sep) == [w] + Split(r, sep)
    decreases |w|
  {
    var s := w + [sep] + r;
    if w == [] {
      assert s[1..] == r;
    } else {
      assert s[1..] == w[1..] + [sep] + r;
      SplitFirstPiece(w[1..], sep, r);
      assert [w[0]] + w[1..] == w;
    }
  }

  /** Splitting undoes joining separator-free pieces. */
  lemma {:induction false} SplitJoin(parts: seq<string>, sep: char)
    requires |parts| >= 1
    requires forall i :: 0 <= i < |parts| ==> sep !in parts[i]
    ensures Split(Join(parts, sep), sep) == parts
    decreases |parts|
  {
    if |parts| == 1 {
      SplitWithoutSeparator(parts[0], sep);
    } else {
      SplitJoin(parts[1..], sep);
      SplitFirstPiece(parts[0], sep, Join(parts[1..], sep));
      assert [parts[0]] + parts[1..] == parts;
    }
  }

  /** `req.headers['authorization'] ?? req.headers['Authorization']`. */
  function AuthHeader(lower: Option<string>, upper: Option<string>): Option<string> {
    if lower.Some? then lower else upper
  }

  /**
   * `authHeader.split(' ')[1]`: throws when there is no header; undefined
   * when the header has no space.
   */
  function BearerToken(header: Option<string>): (r: Outcome<Option<string>>)
    ensures r.Threw? <==> header.None?
    ensures r.Returned? && r.value.Some? ==> ' ' !in r.value.value
  {
    match header
    case None => Threw
    case Some(h) =>
      var parts := Split(h, ' ');
      Returned(if |parts| > 1 then Some(parts[1]) else None)
  }

  /** A well-formed `Bearer <token>` header yields the token. */
  lemma BearerHeaderYieldsToken(token: string)
    requires ' ' !in token
    ensures BearerToken(Some("Bearer " + token)) == Returned(Some(token))
  {
    assert Join(["Bearer", token], ' ') == "Bearer " + token;
    SplitJoin(["Bearer", token], ' ');
  }

  /** Decoding an undefined token yields null. */
  function Decode(token: Option<string>, decode: string -> Decoded): Decoded {
    match token
    case None => Falsy
    case Some(t) => decode(t)
  }

  /**
   * The blacklist write that succeeds for a decoded token, if any: there must
   * be a claims object with a `jti` and an `exp`, and the expiry
   * `exp - floor(now_ms / 1000)` must be positive for the server to take it.
   */
  function Revoking(d: Decoded, nowMs: int): Option<Revocation> {
    if d.Claims? && d.jti.Some? && d.exp.Some? && d.exp.value - nowMs / 1000 > 0 then
      Some(Revocation(d.jti.value, d.exp.value - nowMs / 1000))
    else None
  }

  /** The cache after a blacklist write, if there is one. */
  function WithRevocation(entries: map<string, Entry>, r: Option<Revocation>): map<string, Entry> {
    match r
    case None => entries
    case Some(b) => entries[BlacklistKey(b.jti) := Entry(Marker("revoked"), b.ttl)]
  }

  /**
   * The blacklist entry lives exactly as long as the token has left: it is
   * written only for a token that has not yet expired, and it expires at
   * the token's own `exp` second.
   */
  lemma RevocationLastsUntilExpiry(d: Decoded, nowMs: int)
    ensures Revoking(d, nowMs).Some? ==>
      && d.Claims? && d.exp.Some? && d.jti == Some(Revoking(d, nowMs).value.jti)
      && nowMs / 1000 < d.exp.value
      && nowMs / 1000 + Revoking(d, nowMs).value.ttl == d.exp.value
    ensures d.Claims? && d.jti.Some? && d.exp.Some? && nowMs / 1000 < d.exp.value ==> Revoking(d, nowMs).Some?
  {
  }

  /**
   * The caller's revocation after a committed mutation: the header is read,
   * split and its second piece decoded.
   */
  function CallerRevocation(lower: Option<string>, upper: Option<string>, decode: string -> Decoded, nowMs: int): Outcome<Option<Revocation>> {
    match BearerToken(AuthHeader(lower, upper))
    case Threw => Threw
    case Returned(token) => Returned(Revoking(Decode(token, decode), nowMs))
  }

  /** The response to a committed mutation: 200 with `data` once the token is revoked, else 500. */
  function Answer(rev: Outcome<Option<Revocation>>, data: seq<Admin>): Outcome<Reply> {
    match rev
    case Threw => Threw
    case Returned(r) => Returned(if r.Some? then Reply(200, data) else Reply(500, []))
  }

  /** The cache after the caller's revocation. */
  function AfterRevocation(entries: map<string, Entry>, rev: Outcome<Option<Revocation>>): map<string, Entry> {
    match rev
    case Threw => entries
    case Returned(r) => WithRevocation(entries, r)
  }

  /**
   * After a mutation that answered 200, the guard refuses the caller's token
   * from then on, unless its `jti` is the empty string, which the guard
   * never looks up.
   */
  lemma {:induction false} SuccessRevokesCaller(
    lower: Option<string>, upper: Option<string>, decode: string -> Decoded, nowMs: int,
    entries: map<string, Entry>, data: seq<Admin>, token: string)
    requires BearerToken(AuthHeader(lower, upper)) == Returned(Some(token))
    requires Answer(CallerRevocation(lower, upper, decode, nowMs), data) == Returned(Reply(200, data))
    ensures decode(token).Claims? && decode(token).jti.Some?
    ensures Decision(false, true, decode(token).jti, AfterRevocation(entries, CallerRevocation(lower, upper, decode, nowMs))) == Revoked
      <==> decode(token).jti.value != ""
  {
    var b := Revoking(decode(token), nowMs).value;
    RevocationRejects(b.jti, b.ttl, entries);
  }

  class AdminResolver {
    const service: AdminService

    constructor (admins: AdminService)
      ensures service == admins
    {
      service := admins;
    }

    /** The service's table and cache agree. */
    ghost predicate Valid()
      reads this, service, service.redis
    {
      service.Valid() && service.Coherent()
    }

    /**
     * `setTokenToBlacklist`: false without a write unless the token decodes
     * to an object with a `jti`; otherwise SET `blacklist:<jti>` to `revoked`
     * with expiry `exp - floor(now_ms / 1000)`, and a refused SET is caught
     * and answered with false.
     */
    method SetTokenToBlacklist(token: Option<string>, decode: string -> Decoded, nowMs: int) returns (ok: bool)
      requires Valid()
      modifies service.redis
      ensures Valid()
      ensures ok <==> Revoking(Decode(token, decode), nowMs).Some?
      ensures service.redis.entries == WithRevocation(old(service.redis.entries), Revoking(Decode(token, decode), nowMs))
    {
      var decoded := Decode(token, decode);
      if !decoded.Claims? || decoded.jti.None? {
        return false;
      }
      if decoded.exp.None? {
        // `undefined - n` is NaN, which the server refuses as an expiry
        return false;
      }
      BlacklistApart(NS, decoded.jti.value);
      ok := service.redis.Set(BlacklistKey(decoded.jti.value), Marker("revoked"), decoded.exp.value - nowMs / 1000);
    }

    /** The tail of each mutation once it has committed: revoke the caller's token, answer 200 or 500. */
    method RespondCommitted(lower: Option<string>, upper: Option<string>, decode: string -> Decoded, nowMs: int, data: seq<Admin>)
      returns (r: Outcome<Reply>)
      requires Valid()
      modifies service.redis
      ensures Valid()
      ensures r == Answer(CallerRevocation(lower, upper, decode, nowMs), data)
      ensures service.redis.entries == AfterRevocation(old(service.redis.entries), CallerRevocation(lower, upper, decode, nowMs))
    {
      var token := BearerToken(AuthHeader(lower, upper));
      if token.Threw? {
        return Threw;
      }
      var ok := SetTokenToBlacklist(token.value, decode, nowMs);
      r := if ok then Returned(Reply(200, data)) else Returned(Reply(500, []));
    }

    /** `getAdminById`: always a reply object, 200 with the admin or 204. */
    method GetAdminById(id: int) returns (reply: Reply)
      requires Valid()
      modifies service.redis
      ensures Valid()
      ensures reply == if id in service.rows then Reply(200, [service.rows[id]]) else Reply(204, [])
      ensures service.redis.entries ==
        if id in service.rows then Fill(old(service.redis.entries), IdKey(NS, id), Entry(OneAdmin(service.rows[id]), TTL))
        else old(service.redis.entries)
    {
      var result := service.FindById(id);
      reply := if result.Some? then Reply(200, [result.value]) else Reply(204, []);
    }

    /** `createAdmin`: 400 for a name outside the rule before the service is called; then 200 or 204. */
    method CreateAdmin(name: string, hash: string, newId: int, now: int, saved: bool) returns (reply: Reply)
      requires Valid()
      requires newId !in service.rows
      modifies service, service.redis
      ensures Valid()
      ensures !ValidAdminName(name) ==>
        reply == Reply(400, []) && service.rows == old(service.rows) && service.redis.entries == old(service.redis.entries)
      ensures ValidAdminName(name) && !saved ==>
        reply == Reply(204, []) && service.rows == old(service.rows) && service.redis.entries == old(service.redis.entries)
      ensures ValidAdminName(name) && saved ==>
        && reply == Reply(200, [NewAdmin(name, hash, newId, now)])
        && service.rows == old(service.rows)[newId := NewAdmin(name, hash, newId, now)]
        && service.redis.entries == old(service.redis.entries) - CreateKeys(name, newId)
    {
      if !ValidAdminName(name) {
        return Reply(400, []);
      }
      var result := service.Create(name, hash, newId, now, saved);
      reply := if result.Some? then Reply(200, [result.value]) else Reply(204, []);
    }

    /**
     * `updateAdmin`: the existence pre-check tests a reply object, which is
     * always truthy, so it never stops the update; a committed update
     * revokes the caller's token.
     */
    method UpdateAdmin(patch: AdminPatch, hash: string, saved: bool,
                       lower: Option<string>, upper: Option<string>, decode: string -> Decoded, nowMs: int)
      returns (r: Outcome<Reply>)
      requires Valid()
      modifies service, service.redis
      ensures Valid()
      ensures
        var id := patch.adminId;
        var filled := if id in old(service.rows)
          then Fill(old(service.redis.entries), IdKey(NS, id), Entry(OneAdmin(old(service.rows)[id]), TTL))
          else old(service.redis.entries);
        && (!(id in old(service.rows) && saved) ==>
              r == Returned(Reply(204, [])) && service.rows == old(service.rows) && service.redis.entries == filled)
        && (id in old(service.rows) && saved ==>
              var updated := Updated(old(service.rows)[id], patch, hash);
              var rev := CallerRevocation(lower, upper, decode, nowMs);
              && service.rows == old(service.rows)[id := updated]
              && r == Answer(rev, [updated])
              && service.redis.entries ==
                   AfterRevocation((filled - UpdateKeys(updated))[IdKey(NS, id) := Entry(OneAdmin(updated), TTL)], rev))
    {
      var _ := GetAdminById(patch.adminId);
      var result := service.Update(patch, hash, saved);
      if result.None? {
        return Returned(Reply(204, []));
      }
      r := RespondCommitted(lower, upper, decode, nowMs, [result.value]);
    }

    /** `updateAdminStatus`: a committed flag change revokes the caller's token. */
    method UpdateAdminStatus(id: int, isActive: bool,
                             lower: Option<string>, upper: Option<string>, decode: string -> Decoded, nowMs: int)
      returns (r: Outcome<Reply>)
      requires Valid()
      modifies service, service.redis
      ensures Valid()
      ensures id !in old(service.rows) ==>
        r == Returned(Reply(204, [])) && service.rows == old(service.rows) && service.redis.entries == old(service.redis.entries)
      ensures id in old(service.rows) ==>
        var updated := old(service.rows)[id].(isActive := isActive);
        var rev := CallerRevocation(lower, upper, decode, nowMs);
        && service.rows == old(service.rows)[id := updated]
        && r == Answer(rev, [updated])
        && service.redis.entries ==
             AfterRevocation((old(service.redis.entries) - ActiveKeys(id))[IdKey(NS, id) := Entry(OneAdmin(updated), TTL)], rev)
    {
      var result := service.UpdateActive(id, isActive);
      if result.None? {
        return Returned(Reply(204, []));
      }
      r := RespondCommitted(lower, upper, decode, nowMs, [result.value]);
    }

    /** `deleteAdmin`: a committed removal revokes the caller's token and answers 200 with no data. */
    method DeleteAdmin(id: int, lower: Option<string>, upper: Option<string>, decode: string -> Decoded, nowMs: int)
      returns (r: Outcome<Reply>)
      requires Valid()
      modifies service, service.redis
      ensures Valid()
      ensures service.rows == old(service.rows) - {id}
      ensures id !in old(service.rows) ==>
        r == Returned(Reply(204, [])) && service.redis.entries == old(service.redis.entries)
      ensures id in old(service.rows) ==>
        var rev := CallerRevocation(lower, upper, decode, nowMs);
        && r == Answer(rev, [])
        && service.redis.entries == AfterRevocation(old(service.redis.entries) - RemoveKeys(id), rev)
    {
      var ok := service.Remove(id);
      if !ok {
        return Returned(Reply(204, []));
      }
      r := RespondCommitted(lower, upper, decode, nowMs, []);
    }
  }
}
