/**
 * The key-value cache the services share (an ioredis client). Values are the
 * JSON texts the services store, represented by what they parse back to.
 * Keys are compared literally: GET, SET and DEL never interpret `*`.
 */
module KeyValue {
  import opened Wrappers
  import opened Entities

  /** What a cached text parses back to. */
  datatype Cached =
    | Marker(text: string)
    | Count(n: int)
    | Articles(articles: seq<Article>)
    | OneArticle(article: Article)
    | Links(links: seq<FriendLink>)
    | OneLink(link: FriendLink)
    | Admins(admins: seq<Admin>)
    | OneAdmin(admin: Admin)
    | LegacyLinks(legacyLinks: seq<LegacyLink>)
    | OneLegacyLink(legacyLink: LegacyLink)

  /** A stored value with the expiry, in seconds, it was written with. */
  datatype Entry = Entry(value: Cached, ttl: int)

  /**
   * JavaScript truthiness of the string GET hands back: only the empty string
   * is falsy, and every JSON text is non-empty.
   */
  predicate Truthy(v: Cached) {
    !(v.Marker? && v.text == "")
  }

  /**
   * What a read-through leaves in the cache: `entry` is written under `key`
   * only when nothing was there.
   */
  function Fill(entries: map<string, Entry>, key: string, entry: Entry): (r: map<string, Entry>)
    ensures key in r && r.Keys == entries.Keys + {key}
    ensures forall k :: k in entries ==> r[k] == entries[k]
    ensures key !in entries ==> r[key] == entry
  {
    if key in entries then entries else entries[key := entry]
  }

  class Redis {
    var entries: map<string, Entry>

    constructor ()
      ensures entries == map[]
    {
      entries := map[];
    }

    /** GET: the value under exactly `key`, if any. */
    method Get(key: string) returns (v: Option<Cached>)
      ensures v.Some? <==> key in entries
      ensures v.Some? ==> v.value == entries[key].value
    {
      if key in entries {
        v := Some(entries[key].value);
      } else {
        v := None;
      }
    }

    /**
     * SET key value EX ttl. The server refuses an expiry that is not positive
     * ("invalid expire time"), and then nothing is written.
     */
    method Set(key: string, value: Cached, ttl: int) returns (ok: bool)
      modifies this
      ensures ok <==> ttl > 0
      ensures entries == if ok then old(entries)[key := Entry(value, ttl)] else old(entries)
    {
      ok := ttl > 0;
      if ok {
        entries := entries[key := Entry(value, ttl)];
      }
    }

    /** DEL key: removes exactly that key and answers how many keys went. */
    method Del(key: string) returns (removed: nat)
      modifies this
      ensures removed == if key in old(entries) then 1 else 0
      ensures entries == old(entries) - {key}
    {
      removed := if key in entries then 1 else 0;
      entries := entries - {key};
    }

    /** KEYS *: every key present, each once, in no particular order. */
    method AllKeys() returns (ks: seq<string>)
      ensures forall k :: k in ks <==> k in entries
      ensures |ks| == |entries|
    {
      ks := [];
      var left := entries.Keys;
      while left != {}
        invariant left !! set k | k in ks
        invariant left + (set k | k in ks) == entries.Keys
        invariant |ks| == |set k | k in ks|
        decreases left
      {
        var k :| k in left;
        ghost var before := set j | j in ks;
        ks := ks + [k];
        assert (set j | j in ks) == before + {k};
        left := left - {k};
      }
      assert (set j | j in ks) == entries.Keys;
    }

    /** DEL k1 k2 …: removes every listed key and answers how many were present. */
    method DelAll(ks: seq<string>) returns (removed: nat)
      modifies this
      ensures entries == old(entries) - (set k | k in ks)
      ensures removed == |old(entries).Keys * (set k | k in ks)|
    {
      var present := entries.Keys * (set k | k in ks);
      removed := |present|;
      entries := entries - (set k | k in ks);
    }
  }
}
