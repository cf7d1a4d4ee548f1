/**
 * The cache key templates every cached service builds with template literals,
 * and the facts about them that the invalidation arguments need. Keys are plain
 * strings: Redis compares them literally, and DEL never expands a `*` in them.
 */
module CacheKeys {
  import opened Decimal

  /** `<ns>:all`: the unpaginated listing. */
  function AllKey(ns: string): string {
    ns + ":all"
  }

  /** `<ns>:id:<id>`: one row by primary key. */
  function IdKey(ns: string, id: int): string {
    ns + ":id:" + IntToString(id)
  }

  /** `<ns>:name:<name>`: one row by name (admins only). */
  function NameKey(ns: string, name: string): string {
    ns + ":name:" + name
  }

  /** `<ns>:page:<page>:<pageSize>`: one page of the listing. */
  function PageKey(ns: string, page: int, size: int): string {
    ns + ":page:" + IntToString(page) + ":" + IntToString(size)
  }

  /** `<ns>:totalPage:<pageSize>`: the cached row count behind a page total. */
  function TotalPageKey(ns: string, size: int): string {
    ns + ":totalPage:" + IntToString(size)
  }

  /** The literal key `<ns>:page:*` that the write paths pass to DEL. */
  function PageWildcard(ns: string): string {
    ns + ":page:*"
  }

  /** The literal key `<ns>:totalPage:*` that the write paths pass to DEL. */
  function TotalPageWildcard(ns: string): string {
    ns + ":totalPage:*"
  }

  /** `blacklist:<jti>`: the revocation marker of one token. */
  function BlacklistKey(jti: string): string {
    "blacklist:" + jti
  }

  /** Two id keys of one namespace are equal only for the same id. */
  lemma IdKeyInjective(ns: string, a: int, b: int)
    requires IdKey(ns, a) == IdKey(ns, b)
    ensures a == b
  {
    var k := IdKey(ns, a);
    assert IntToString(a) == k[|ns| + 4..] == IntToString(b);
    IntToStringInjective(a, b);
  }

  /**
   * Keys of different templates never collide: after `<ns>:` the templates
   * start with different letters (a, i, n, p, t).
   */
  lemma TemplatesDistinct(ns: string, id: int, name: string, page: int, size: int, size2: int)
    ensures AllKey(ns) != IdKey(ns, id) && AllKey(ns) != NameKey(ns, name)
    ensures AllKey(ns) != PageKey(ns, page, size) && AllKey(ns) != TotalPageKey(ns, size2)
    ensures AllKey(ns) != PageWildcard(ns) && AllKey(ns) != TotalPageWildcard(ns)
    ensures IdKey(ns, id) != NameKey(ns, name) && IdKey(ns, id) != PageKey(ns, page, size)
    ensures IdKey(ns, id) != TotalPageKey(ns, size2)
    ensures IdKey(ns, id) != PageWildcard(ns) && IdKey(ns, id) != TotalPageWildcard(ns)
    ensures NameKey(ns, name) != PageKey(ns, page, size) && NameKey(ns, name) != TotalPageKey(ns, size2)
    ensures NameKey(ns, name) != PageWildcard(ns) && NameKey(ns, name) != TotalPageWildcard(ns)
    ensures PageKey(ns, page, size) != TotalPageKey(ns, size2)
    ensures PageKey(ns, page, size) != TotalPageWildcard(ns)
    ensures TotalPageKey(ns, size2) != PageWildcard(ns)
  {
    var i := |ns| + 1;
    assert AllKey(ns)[i] == 'a';
    assert IdKey(ns, id)[i] == 'i';
    assert NameKey(ns, name)[i] == 'n';
    assert PageKey(ns, page, size)[i] == 'p' && PageWildcard(ns)[i] == 'p';
    assert TotalPageKey(ns, size2)[i] == 't' && TotalPageWildcard(ns)[i] == 't';
  }

  /**
   * The literal `<ns>:page:*` is not the key of any page, and the literal
   * `<ns>:totalPage:*` is not the key of any page total: deleting the literal
   * leaves every cached page and page total in place.
   */
  lemma WildcardIsLiteral(ns: string, page: int, size: int, size2: int)
    ensures PageKey(ns, page, size) != PageWildcard(ns)
    ensures TotalPageKey(ns, size2) != TotalPageWildcard(ns)
  {
    IntToStringChars(page);
    IntToStringChars(size2);
    assert PageKey(ns, page, size)[|ns| + 6] == IntToString(page)[0];
    assert PageWildcard(ns)[|ns| + 6] == '*';
    assert TotalPageKey(ns, size2)[|ns| + 11] == IntToString(size2)[0];
    assert TotalPageWildcard(ns)[|ns| + 11] == '*';
  }

  /** Writing `<ns>:id:<x>` touches no other template's key and no other id's key. */
  lemma IdKeyApart(ns: string, x: int)
    ensures AllKey(ns) != IdKey(ns, x)
    ensures forall p, s :: PageKey(ns, p, s) != IdKey(ns, x)
    ensures forall s :: TotalPageKey(ns, s) != IdKey(ns, x)
    ensures forall name :: NameKey(ns, name) != IdKey(ns, x)
    ensures forall id :: IdKey(ns, id) == IdKey(ns, x) ==> id == x
  {
    TemplatesDistinct(ns, x, "", 0, 0, 0);
    forall p, s ensures PageKey(ns, p, s) != IdKey(ns, x) {
      TemplatesDistinct(ns, x, "", p, s, 0);
    }
    forall s ensures TotalPageKey(ns, s) != IdKey(ns, x) {
      TemplatesDistinct(ns, x, "", 0, 0, s);
    }
    forall name ensures NameKey(ns, name) != IdKey(ns, x) {
      TemplatesDistinct(ns, x, name, 0, 0, 0);
    }
    forall id | IdKey(ns, id) == IdKey(ns, x) ensures id == x {
      IdKeyInjective(ns, id, x);
    }
  }

  /** Writing `<ns>:all` touches no key of another template. */
  lemma AllKeyApart(ns: string)
    ensures forall id :: IdKey(ns, id) != AllKey(ns)
    ensures forall p, s :: PageKey(ns, p, s) != AllKey(ns)
    ensures forall s :: TotalPageKey(ns, s) != AllKey(ns)
    ensures forall name :: NameKey(ns, name) != AllKey(ns)
  {
    forall id ensures IdKey(ns, id) != AllKey(ns) {
      TemplatesDistinct(ns, id, "", 0, 0, 0);
    }
    forall p, s ensures PageKey(ns, p, s) != AllKey(ns) {
      TemplatesDistinct(ns, 0, "", p, s, 0);
    }
    forall s ensures TotalPageKey(ns, s) != AllKey(ns) {
      TemplatesDistinct(ns, 0, "", 0, 0, s);
    }
    forall name ensures NameKey(ns, name) != AllKey(ns) {
      TemplatesDistinct(ns, 0, name, 0, 0, 0);
    }
  }

  /** Writing a page key touches no key of another template. */
  lemma PageKeyApart(ns: string, p: int, s: int)
    ensures AllKey(ns) != PageKey(ns, p, s)
    ensures forall id :: IdKey(ns, id) != PageKey(ns, p, s)
    ensures forall s2 :: TotalPageKey(ns, s2) != PageKey(ns, p, s)
    ensures forall name :: NameKey(ns, name) != PageKey(ns, p, s)
  {
    TemplatesDistinct(ns, 0, "", p, s, 0);
    forall id ensures IdKey(ns, id) != PageKey(ns, p, s) {
      TemplatesDistinct(ns, id, "", p, s, 0);
    }
    forall s2 ensures TotalPageKey(ns, s2) != PageKey(ns, p, s) {
      TemplatesDistinct(ns, 0, "", p, s, s2);
    }
    forall name ensures NameKey(ns, name) != PageKey(ns, p, s) {
      TemplatesDistinct(ns, 0, name, p, s, 0);
    }
  }

  /** Writing a page-total key touches no key of another template. */
  lemma TotalPageKeyApart(ns: string, s: int)
    ensures AllKey(ns) != TotalPageKey(ns, s)
    ensures forall id :: IdKey(ns, id) != TotalPageKey(ns, s)
    ensures forall p, s2 :: PageKey(ns, p, s2) != TotalPageKey(ns, s)
    ensures forall name :: NameKey(ns, name) != TotalPageKey(ns, s)
  {
    TemplatesDistinct(ns, 0, "", 0, 0, s);
    forall id ensures IdKey(ns, id) != TotalPageKey(ns, s) {
      TemplatesDistinct(ns, id, "", 0, 0, s);
    }
    forall p, s2 ensures PageKey(ns, p, s2) != TotalPageKey(ns, s) {
      TemplatesDistinct(ns, 0, "", p, s2, s);
    }
    forall name ensures NameKey(ns, name) != TotalPageKey(ns, s) {
      TemplatesDistinct(ns, 0, name, 0, 0, s);
    }
  }

  /** Writing a by-name key touches no key of another template. */
  lemma NameKeyApart(ns: string, name: string)
    ensures AllKey(ns) != NameKey(ns, name)
    ensures forall id :: IdKey(ns, id) != NameKey(ns, name)
  {
    TemplatesDistinct(ns, 0, name, 0, 0, 0);
    forall id ensures IdKey(ns, id) != NameKey(ns, name) {
      TemplatesDistinct(ns, id, name, 0, 0, 0);
    }
  }

  /**
   * No key of a concrete template is one of the two literal wildcards, so a
   * DEL of a wildcard leaves every concrete key in place.
   */
  lemma WildcardsApart(ns: string)
    ensures AllKey(ns) != PageWildcard(ns) && AllKey(ns) != TotalPageWildcard(ns)
    ensures forall id :: IdKey(ns, id) != PageWildcard(ns) && IdKey(ns, id) != TotalPageWildcard(ns)
    ensures forall name :: NameKey(ns, name) != PageWildcard(ns) && NameKey(ns, name) != TotalPageWildcard(ns)
    ensures forall p, s :: PageKey(ns, p, s) != PageWildcard(ns) && PageKey(ns, p, s) != TotalPageWildcard(ns)
    ensures forall s :: TotalPageKey(ns, s) != PageWildcard(ns) && TotalPageKey(ns, s) != TotalPageWildcard(ns)
  {
    TemplatesDistinct(ns, 0, "", 0, 0, 0);
    forall id ensures IdKey(ns, id) != PageWildcard(ns) && IdKey(ns, id) != TotalPageWildcard(ns) {
      TemplatesDistinct(ns, id, "", 0, 0, 0);
    }
    forall name ensures NameKey(ns, name) != PageWildcard(ns) && NameKey(ns, name) != TotalPageWildcard(ns) {
      TemplatesDistinct(ns, 0, name, 0, 0, 0);
    }
    forall p, s ensures PageKey(ns, p, s) != PageWildcard(ns) && PageKey(ns, p, s) != TotalPageWildcard(ns) {
      TemplatesDistinct(ns, 0, "", p, s, 0);
      WildcardIsLiteral(ns, p, s, 0);
    }
    forall s ensures TotalPageKey(ns, s) != PageWildcard(ns) && TotalPageKey(ns, s) != TotalPageWildcard(ns) {
      TemplatesDistinct(ns, 0, "", 0, 0, s);
      WildcardIsLiteral(ns, 0, 0, s);
    }
  }

  /** Two by-name keys of one namespace are equal only for the same name. */
  lemma NameKeyInjective(ns: string, a: string, b: string)
    requires NameKey(ns, a) == NameKey(ns, b)
    ensures a == b
  {
    var k := NameKey(ns, a);
    assert a == k[|ns| + 6..] == b;
  }

  /**
   * A revocation key never collides with a key of a namespace that does not
   * start with `b`, such as `user`.
   */
  lemma BlacklistApart(ns: string, jti: string)
    requires |ns| > 0 && ns[0] != 'b'
    ensures BlacklistKey(jti) != AllKey(ns)
    ensures forall id :: BlacklistKey(jti) != IdKey(ns, id)
    ensures forall name :: BlacklistKey(jti) != NameKey(ns, name)
  {
    assert BlacklistKey(jti)[0] == 'b';
    assert AllKey(ns)[0] == ns[0];
    forall id ensures BlacklistKey(jti) != IdKey(ns, id) {
      assert IdKey(ns, id)[0] == ns[0];
    }
    forall name ensures BlacklistKey(jti) != NameKey(ns, name) {
      assert NameKey(ns, name)[0] == ns[0];
    }
  }
}
