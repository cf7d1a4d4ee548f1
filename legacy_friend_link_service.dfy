/**
 * The friend-link service of the older server: the same `friendLink:` keys,
 * an unfiltered listing, an update whose save cannot succeed, and a status
 * update whose success test is inverted.
 */
module LegacyFriendLinkCache {
  import opened Wrappers
  import opened Entities
  import opened CacheKeys
  import opened KeyValue
  import opened Query

  const NS: string := "friendLink"

  /** Listing and by-id entries are written with `EX 3600`. */
  const TTL: int := 3600

  /** Page-total entries are written with `EX 18000`. */
  const TotalTTL: int := 18000

  /**
   * The update input. Of its property names only `link_url` and
   * `link_status` are properties of the table's entity.
   */
  datatype LegacyLinkInput = LegacyLinkInput(
    link_name: Arg<string>,
    link_url: Arg<string>,
    link_logo: Arg<string>,
    link_desc: Arg<string>,
    link_status: Arg<int>)

  /**
   * The row `linkId` after the intended update: the properties the entity
   * knows and the input gives are written; `link_name`, `link_logo` and
   * `link_desc` name no column and are dropped.
   */
  function Saved(l: LegacyLink, input: LegacyLinkInput): LegacyLink {
    l.(link_url := if input.link_url.Given? then input.link_url.value else l.link_url,
       link_status := if input.link_status.Given? then input.link_status.value else l.link_status)
  }

  /** The title, the logo path and the description never change through an update. */
  lemma SaveDropsUnknownProperties(l: LegacyLink, input: LegacyLinkInput)
    ensures Saved(l, input).link_id == l.link_id
    ensures Saved(l, input).link_title == l.link_title
    ensures Saved(l, input).link_image_path == l.link_image_path
    ensures Saved(l, input).link_description == l.link_description
  {
  }

  /** The keys `updateFriendLink` deletes. */
  function UpdateKeys(id: int): set<string> {
    {AllKey(NS), IdKey(NS, id), PageWildcard(NS)}
  }

  /** The keys `deleteFriendLink` and the status update delete. */
  function IdAndAll(id: int): set<string> {
    {IdKey(NS, id), AllKey(NS)}
  }

  /** A delete keeps every cached page and page total, and every other id's entry. */
  lemma DeleteSparesOthers(c: map<string, Entry>, id: int)
    ensures forall p, s :: PageKey(NS, p, s) in c ==> PageKey(NS, p, s) in c - IdAndAll(id)
    ensures forall s :: TotalPageKey(NS, s) in c ==> TotalPageKey(NS, s) in c - IdAndAll(id)
    ensures forall id2 :: IdKey(NS, id2) in c && id2 != id ==> IdKey(NS, id2) in c - IdAndAll(id)
  {
    IdKeyApart(NS, id);
    AllKeyApart(NS);
  }

  class LegacyFriendLinkService {
    const redis: Redis
    var rows: map<int, LegacyLink>

    /** The table holds each link under its own key. */
    ghost predicate Valid()
      reads this
    {
      KeyedBy(rows, LegacyKey)
    }

    /**
     * An id key holds the stored row; the listing key a non-empty list of all
     * rows; a page key a list of links; a page-total key a count.
     */
    ghost predicate Coherent()
      reads this, redis
    {
      && (forall id :: IdKey(NS, id) in redis.entries ==>
            id in rows && redis.entries[IdKey(NS, id)].value == OneLegacyLink(rows[id]))
      && (AllKey(NS) in redis.entries ==>
            var v := redis.entries[AllKey(NS)].value;
            v.LegacyLinks? && v.legacyLinks != [] && IsSelection(rows, Everything, LegacyKey, v.legacyLinks))
      && (forall p, s :: PageKey(NS, p, s) in redis.entries ==> redis.entries[PageKey(NS, p, s)].value.LegacyLinks?)
      && (forall s :: TotalPageKey(NS, s) in redis.entries ==>
            redis.entries[TotalPageKey(NS, s)].value.Count? && redis.entries[TotalPageKey(NS, s)].value.n >= 0)
    }

    constructor (cache: Redis, table: map<int, LegacyLink>)
      requires cache.entries == map[]
      requires KeyedBy(table, LegacyKey)
      ensures redis == cache && rows == table
      ensures Valid() && Coherent()
    {
      redis := cache;
      rows := table;
    }

    /** `findAll`: every link, unfiltered, through `friendLink:all`. */
    method FindAll() returns (r: Option<seq<LegacyLink>>)
      requires Valid() && Coherent()
      modifies redis
      ensures Valid() && Coherent()
      ensures r.Some? ==> r.value != [] && IsSelection(rows, Everything, LegacyKey, r.value)
      ensures r.None? <==> rows == map[]
      ensures AllKey(NS) in old(redis.entries) ==>
        redis.entries == old(redis.entries) && r == Some(old(redis.entries)[AllKey(NS)].value.legacyLinks)
      ensures AllKey(NS) !in old(redis.entries) ==>
        redis.entries == if r.None? then old(redis.entries)
                         else old(redis.entries)[AllKey(NS) := Entry(LegacyLinks(r.value), TTL)]
    {
      var cached := redis.Get(AllKey(NS));
      var xs: seq<LegacyLink>;
      if cached.Some? {
        xs := cached.value.legacyLinks;
      } else {
        xs := SelectNewestFirst(rows, Everything, LegacyKey, LegacyStamp);
      }
      SelectionBounded(rows, Everything, LegacyKey, xs);
      if rows != map[] {
        var k := Pick(rows.Keys);
        assert Everything(rows[k]);
      }
      if cached.Some? {
        return Some(xs);
      }
      if |xs| > 0 {
        var _ := redis.Set(AllKey(NS), LegacyLinks(xs), TTL);
        AllKeyApart(NS);
        r := Some(xs);
      } else {
        r := None;
      }
    }

    /** `findById`: the stored link, read through `friendLink:id:<id>`. */
    method FindById(id: int) returns (r: Option<LegacyLink>)
      requires Valid() && Coherent()
      modifies redis
      ensures Valid() && Coherent()
      ensures r == if id in rows then Some(rows[id]) else None
      ensures redis.entries ==
        if id in rows then Fill(old(redis.entries), IdKey(NS, id), Entry(OneLegacyLink(rows[id]), TTL))
        else old(redis.entries)
    {
      var cached := redis.Get(IdKey(NS, id));
      if cached.Some? {
        return Some(cached.value.legacyLink);
      }
      if id in rows {
        var _ := redis.Set(IdKey(NS, id), OneLegacyLink(rows[id]), TTL);
        IdKeyApart(NS, id);
        r := Some(rows[id]);
      } else {
        r := None;
      }
    }

    /** `findByPage`: a cached page if one is there, otherwise the window of the public links, newest first; never cached. */
    method FindByPage(page: int, pageSize: int) returns (r: Outcome<seq<LegacyLink>>, ghost listing: seq<LegacyLink>)
      requires Valid() && Coherent()
      ensures PageKey(NS, page, pageSize) in redis.entries ==>
        r == Returned(redis.entries[PageKey(NS, page, pageSize)].value.legacyLinks)
      ensures PageKey(NS, page, pageSize) !in redis.entries ==>
        && IsListing(rows, IsPublicLegacy, LegacyKey, LegacyStamp, listing)
        && r == match Window(listing, Offset(page, pageSize), pageSize)
                case None => Threw
                case Some(w) => Returned(w)
    {
      var cached := redis.Get(PageKey(NS, page, pageSize));
      if cached.Some? {
        return Returned(cached.value.legacyLinks), [];
      }
      var xs := SelectNewestFirst(rows, IsPublicLegacy, LegacyKey, LegacyStamp);
      listing := xs;
      var window := Window(xs, Offset(page, pageSize), pageSize);
      r := if window.None? then Threw else Returned(window.value);
    }

    /** `getTotalPages`: `Math.ceil(count / pageSize)`, the count cached with expiry 18000. */
    method GetTotalPages(pageSize: int) returns (r: Option<int>)
      requires Valid() && Coherent()
      modifies redis
      ensures Valid() && Coherent()
      ensures TotalPageKey(NS, pageSize) in old(redis.entries) ==>
        && redis.entries == old(redis.entries)
        && r == TotalPages(old(redis.entries)[TotalPageKey(NS, pageSize)].value.n, pageSize)
      ensures TotalPageKey(NS, pageSize) !in old(redis.entries) ==>
        && r == TotalPages(|rows|, pageSize)
        && redis.entries == old(redis.entries)[TotalPageKey(NS, pageSize) := Entry(Count(|rows|), TotalTTL)]
    {
      var key := TotalPageKey(NS, pageSize);
      var cached := redis.Get(key);
      if cached.Some? {
        return TotalPages(cached.value.n, pageSize);
      }
      var total := |rows|;
      var _ := redis.Set(key, Count(total), TotalTTL);
      TotalPageKeyApart(NS, pageSize);
      r := TotalPages(total, pageSize);
    }

    /** The three deletes `updateFriendLink` issues after a save. */
    method InvalidateForUpdate(id: int)
      modifies redis
      ensures redis.entries == old(redis.entries) - UpdateKeys(id)
    {
      var _ := redis.Del(AllKey(NS));
      var _ := redis.Del(IdKey(NS, id));
      var _ := redis.Del(PageWildcard(NS));
    }

    /** The two deletes of the id key and the listing. */
    method InvalidateIdAndAll(id: int)
      modifies redis
      ensures redis.entries == old(redis.entries) - IdAndAll(id)
    {
      var _ := redis.Del(IdKey(NS, id));
      var _ := redis.Del(AllKey(NS));
    }

    /**
     * `updateFriendLink` as written: after an existence check through the
     * cache, `save({ ...updateData })` is handed an object that names its
     * link `linkId` rather than by the primary key `link_id`, so the save is
     * an insert; that insert gives no `link_title`, a NOT NULL column with no
     * default, and the database refuses it. The call rejects with the by-id
     * entry filled and neither the table nor any other key changed.
     */
    method UpdateFriendLink(id: int, input: LegacyLinkInput) returns (r: Outcome<Option<LegacyLink>>)
      requires Valid() && Coherent()
      modifies this, redis
      ensures Valid() && Coherent()
      ensures rows == old(rows)
      ensures id !in old(rows) ==> r == Returned(None) && redis.entries == old(redis.entries)
      ensures id in old(rows) ==>
        && r == Threw
        && redis.entries == Fill(old(redis.entries), IdKey(NS, id), Entry(OneLegacyLink(old(rows)[id]), TTL))
    {
      var found := FindById(id);
      if found.None? {
        return Returned(None);
      }
      r := Threw;
    }

    /**
     * `updateFriendLink` as intended: the input's matching properties are
     * merged into row `linkId`, then the listing, the id key and the literal
     * page wildcard are deleted and the link is re-read.
     */
    method UpdateFriendLinkAsIntended(id: int, input: LegacyLinkInput, saved: bool) returns (r: Option<LegacyLink>)
      requires Valid() && Coherent()
      modifies this, redis
      ensures Valid() && Coherent()
      ensures id !in old(rows) ==> r == None && rows == old(rows) && redis.entries == old(redis.entries)
      ensures id in old(rows) && !saved ==>
        && r == None && rows == old(rows)
        && redis.entries == Fill(old(redis.entries), IdKey(NS, id), Entry(OneLegacyLink(old(rows)[id]), TTL))
      ensures id in old(rows) && saved ==>
        var updated := Saved(old(rows)[id], input);
        && r == Some(updated)
        && rows == old(rows)[id := updated]
        && redis.entries == (old(redis.entries) - UpdateKeys(id))[IdKey(NS, id) := Entry(OneLegacyLink(updated), TTL)]
    {
      var found := FindById(id);
      if found.None? {
        return None;
      }
      if !saved {
        return None;
      }
      rows := rows[id := Saved(rows[id], input)];
      InvalidateForUpdate(id);
      r := FindById(id);
    }

    /**
     * `updateStatus` as written: the status is set on the loaded link and
     * saved, but the deletes and the re-read run only when the save answers
     * falsy. A successful save answers null and leaves the by-id entry, which
     * the existence check has just filled, holding the old status.
     */
    method UpdateStatus(id: int, status: int, saved: bool) returns (r: Option<LegacyLink>)
      requires Valid() && Coherent()
      modifies this, redis
      ensures Valid()
      ensures id !in old(rows) ==>
        r == None && rows == old(rows) && redis.entries == old(redis.entries) && Coherent()
      ensures id in old(rows) && saved ==>
        && r == None
        && rows == old(rows)[id := old(rows)[id].(link_status := status)]
        && redis.entries == Fill(old(redis.entries), IdKey(NS, id), Entry(OneLegacyLink(old(rows)[id]), TTL))
      ensures id in old(rows) && saved && status != old(rows)[id].link_status ==> !Coherent()
      ensures id in old(rows) && !saved ==>
        && r == Some(old(rows)[id])
        && rows == old(rows)
        && redis.entries == (old(redis.entries) - {AllKey(NS)})[IdKey(NS, id) := Entry(OneLegacyLink(old(rows)[id]), TTL)]
        && Coherent()
    {
      var link := FindById(id);
      if link.None? {
        return None;
      }
      var changed := link.value.(link_status := status);
      if saved {
        rows := rows[id := changed];
        assert redis.entries[IdKey(NS, id)].value == OneLegacyLink(old(rows)[id]);
        return None;
      }
      InvalidateIdAndAll(id);
      r := FindById(id);
    }

    /**
     * `updateStatus` with the success test the way round the log messages
     * describe: after a truthy save the id key and the listing go and the
     * updated link is re-read, so the cache agrees with the table again.
     */
    method UpdateStatusAsIntended(id: int, status: int, saved: bool) returns (r: Option<LegacyLink>)
      requires Valid() && Coherent()
      modifies this, redis
      ensures Valid() && Coherent()
      ensures id !in old(rows) ==> r == None && rows == old(rows) && redis.entries == old(redis.entries)
      ensures id in old(rows) && saved ==>
        var updated := old(rows)[id].(link_status := status);
        && r == Some(updated)
        && rows == old(rows)[id := updated]
        && redis.entries == (old(redis.entries) - IdAndAll(id))[IdKey(NS, id) := Entry(OneLegacyLink(updated), TTL)]
      ensures id in old(rows) && !saved ==>
        && r == None && rows == old(rows)
        && redis.entries == Fill(old(redis.entries), IdKey(NS, id), Entry(OneLegacyLink(old(rows)[id]), TTL))
    {
      var link := FindById(id);
      if link.None? {
        return None;
      }
      if !saved {
        return None;
      }
      rows := rows[id := link.value.(link_status := status)];
      InvalidateIdAndAll(id);
      r := FindById(id);
    }

    /** `deleteFriendLink`: true exactly when a row went; only then are the id key and the listing deleted. */
    method DeleteFriendLink(id: int) returns (ok: bool)
      requires Valid() && Coherent()
      modifies this, redis
      ensures Valid() && Coherent()
      ensures ok <==> id in old(rows)
      ensures rows == old(rows) - {id}
      ensures redis.entries == if ok then old(redis.entries) - IdAndAll(id) else old(redis.entries)
    {
      var affected := if id in rows then 1 else 0;
      rows := rows - {id};
      if affected > 0 {
        InvalidateIdAndAll(id);
        ok := true;
      } else {
        ok := false;
      }
    }
  }
}
