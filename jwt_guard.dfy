/**
 * The authentication gate in front of the protected routes: public routes
 * pass; otherwise the token's signature and expiry must verify and its `jti`
 * claim (section 4.1.7 of RFC 7519) must not be on the blacklist.
 */
module JwtGuard {
  import opened Wrappers
  import opened CacheKeys
  import opened KeyValue

  /** Let through, refused by answering false, or refused by throwing Unauthorized. */
  datatype Verdict = Admitted | Refused | Revoked

  /** A `jti` is looked up only when it is truthy, that is present and non-empty. */
  predicate Looked(jti: Option<string>) {
    jti.Some? && jti.value != ""
  }

  /** The entry under `blacklist:<jti>` is present and truthy. */
  predicate Blacklisted(entries: map<string, Entry>, jti: string) {
    BlacklistKey(jti) in entries && Truthy(entries[BlacklistKey(jti)].value)
  }

  /**
   * The decision of `canActivate` over the public flag, the verdict of the
   * signature and expiry check, the `jti` of the verified token and the cache.
   */
  function Decision(isPublic: bool, verified: bool, jti: Option<string>, entries: map<string, Entry>): Verdict {
    if isPublic then Admitted
    else if !verified then Refused
    else if Looked(jti) && Blacklisted(entries, jti.value) then Revoked
    else Admitted
  }

  /** Two blacklist keys are equal only for the same `jti`. */
  lemma BlacklistKeyInjective(a: string, b: string)
    requires BlacklistKey(a) == BlacklistKey(b)
    ensures a == b
  {
    var n := |"blacklist:"|;
    assert a == BlacklistKey(a)[n..];
    assert b == BlacklistKey(b)[n..];
  }

  /** A public route is admitted whatever the token and the cache. */
  lemma PublicAdmits(verified: bool, jti: Option<string>, entries: map<string, Entry>)
    ensures Decision(true, verified, jti, entries) == Admitted
  {
  }

  /**
   * A protected route admits exactly the verified tokens whose `jti` is
   * absent, empty or not blacklisted.
   */
  lemma AdmittedExactly(verified: bool, jti: Option<string>, entries: map<string, Entry>)
    ensures Decision(false, verified, jti, entries) == Admitted <==>
      verified && (!Looked(jti) || !Blacklisted(entries, jti.value))
  {
  }

  /** The decision looks at no cache entry other than `blacklist:<jti>`. */
  lemma DecisionReadsOnlyItsEntry(isPublic: bool, verified: bool, jti: Option<string>, a: map<string, Entry>, b: map<string, Entry>)
    requires Looked(jti) ==>
      (BlacklistKey(jti.value) in a <==> BlacklistKey(jti.value) in b)
      && (BlacklistKey(jti.value) in a ==> a[BlacklistKey(jti.value)] == b[BlacklistKey(jti.value)])
    ensures Decision(isPublic, verified, jti, a) == Decision(isPublic, verified, jti, b)
  {
  }

  /**
   * Writing `blacklist:<jti>` with the marker `revoked` makes every verified
   * token carrying that `jti` revoked, provided the `jti` is non-empty; an
   * empty `jti` is never looked up.
   */
  lemma RevocationRejects(jti: string, ttl: int, entries: map<string, Entry>)
    ensures Decision(false, true, Some(jti), entries[BlacklistKey(jti) := Entry(Marker("revoked"), ttl)]) == Revoked
      <==> jti != ""
  {
  }

  /** Revoking one `jti` changes the decision for no other `jti`. */
  lemma {:induction false} RevocationIsPerToken(jti: string, other: string, e: Entry, isPublic: bool, verified: bool, entries: map<string, Entry>)
    requires other != jti
    ensures Decision(isPublic, verified, Some(other), entries[BlacklistKey(jti) := e])
         == Decision(isPublic, verified, Some(other), entries)
  {
    if BlacklistKey(other) == BlacklistKey(jti) {
      BlacklistKeyInjective(other, jti);
    }
  }

  class JwtAuthGuard {
    const redis: Redis

    constructor (client: Redis)
      ensures redis == client
    {
      redis := client;
    }

    /**
     * `canActivate`: the signature and expiry check and the claims of the
     * token are given; the only cache access is one GET.
     */
    method CanActivate(isPublic: bool, verified: bool, jti: Option<string>) returns (v: Verdict)
      ensures v == Decision(isPublic, verified, jti, redis.entries)
    {
      if isPublic {
        return Admitted;
      }
      if !verified {
        return Refused;
      }
      if jti.Some? && jti.value != "" {
        var isBlacklisted := redis.Get(BlacklistKey(jti.value));
        if isBlacklisted.Some? && Truthy(isBlacklisted.value) {
          return Revoked;
        }
      }
      return Admitted;
    }
  }
}
