/**
 * The cached friend-link service: the same read-through and delete-after-write
 * scheme as articles under the `friendLink:` keys, with expiry 3600 (page
 * totals 18000), an uncached page query, an update that leaves page totals in
 * place, and a status update whose saved property the table does not have.
 */
module FriendLinkCache {
  import opened Wrappers
  import opened Entities
  import opened CacheKeys
  import opened KeyValue
  import opened Query

  const NS: string := "friendLink"

  /** Listing and by-id entries are written with `EX 3600`. */
  const TTL: int := 3600

  /** Page-total entries are written with `EX 18000`. */
  const TotalTTL: int := 18000

  /** The create input: title, URL and status, with optional description and logo location. */
  datatype FriendLinkDraft = FriendLinkDraft(
    linkTitle: string,
    linkUrl: string,
    linkDescription: Option<string>,
    linkStatus: int,
    linkImageBucketKey: Option<string>,
    linkImageBucketName: Option<string>,
    linkImageBucketRegion: Option<string>)

  /** The row `save(draft)` inserts under the generated key `id` at time `now`. */
  function NewLink(d: FriendLinkDraft, id: int, now: int): FriendLink {
    FriendLink(id, d.linkTitle, d.linkUrl, d.linkDescription, now, d.linkStatus,
      d.linkImageBucketKey, d.linkImageBucketName, d.linkImageBucketRegion)
  }

  /** The update input: seven optional properties (the id travels beside it). */
  datatype LinkPatch = LinkPatch(
    linkStatus: Arg<int>,
    linkTitle: Arg<string>,
    linkUrl: Arg<string>,
    linkDescription: Arg<string>,
    linkImageBucketKey: Arg<string>,
    linkImageBucketName: Arg<string>,
    linkImageBucketRegion: Arg<string>)

  /** The properties `updateFriendLink` copies, in the order it lists them. */
  datatype PatchField = Status | Title | Url | Description | BucketKey | BucketName | BucketRegion

  const PatchFields: seq<PatchField> := [Status, Title, Url, Description, BucketKey, BucketName, BucketRegion]

  /** A property value that is neither undefined nor null replaces the current one. */
  function Take<T>(arg: Arg<T>, current: T): T {
    if arg.Given? then arg.value else current
  }

  /** The same for a nullable column. */
  function TakeOptional<T>(arg: Arg<T>, current: Option<T>): Option<T> {
    if arg.Given? then Some(arg.value) else current
  }

  /** The specification of the field copy: each listed property the patch gives replaces the stored one. */
  function Patched(l: FriendLink, p: LinkPatch): FriendLink {
    l.(linkStatus := Take(p.linkStatus, l.linkStatus),
       linkTitle := Take(p.linkTitle, l.linkTitle),
       linkUrl := Take(p.linkUrl, l.linkUrl),
       linkDescription := TakeOptional(p.linkDescription, l.linkDescription),
       linkImageBucketKey := TakeOptional(p.linkImageBucketKey, l.linkImageBucketKey),
       linkImageBucketName := TakeOptional(p.linkImageBucketName, l.linkImageBucketName),
       linkImageBucketRegion := TakeOptional(p.linkImageBucketRegion, l.linkImageBucketRegion))
  }

  /** One step of the copy loop. */
  function CopyField(l: FriendLink, p: LinkPatch, f: PatchField): FriendLink {
    match f
    case Status => l.(linkStatus := Take(p.linkStatus, l.linkStatus))
    case Title => l.(linkTitle := Take(p.linkTitle, l.linkTitle))
    case Url => l.(linkUrl := Take(p.linkUrl, l.linkUrl))
    case Description => l.(linkDescription := TakeOptional(p.linkDescription, l.linkDescription))
    case BucketKey => l.(linkImageBucketKey := TakeOptional(p.linkImageBucketKey, l.linkImageBucketKey))
    case BucketName => l.(linkImageBucketName := TakeOptional(p.linkImageBucketName, l.linkImageBucketName))
    case BucketRegion => l.(linkImageBucketRegion := TakeOptional(p.linkImageBucketRegion, l.linkImageBucketRegion))
  }

  /** The link after the loop has visited the fields `fs`, in order. */
  function CopyFields(l: FriendLink, p: LinkPatch, fs: seq<PatchField>): FriendLink
    decreases |fs|
  {
    if fs == [] then l else CopyField(CopyFields(l, p, fs[..|fs| - 1]), p, fs[|fs| - 1])
  }

  lemma CopyingAllFieldsPatches(l: FriendLink, p: LinkPatch)
    ensures CopyFields(l, p, PatchFields) == Patched(l, p)
  {
    var fs := PatchFields;
    assert fs[..1][..0] == [] && fs[..1][0] == Status;
    assert fs[..2][..1] == fs[..1] && fs[..2][1] == Title;
    assert fs[..3][..2] == fs[..2] && fs[..3][2] == Url;
    assert fs[..4][..3] == fs[..3] && fs[..4][3] == Description;
    assert fs[..5][..4] == fs[..4] && fs[..5][4] == BucketKey;
    assert fs[..6][..5] == fs[..5] && fs[..6][5] == BucketName;
    assert fs[..6] == fs[..|fs| - 1] && fs[6] == BucketRegion;
    var l1 := CopyFields(l, p, fs[..1]);
    var l2 := CopyFields(l, p, fs[..2]);
    var l3 := CopyFields(l, p, fs[..3]);
    var l4 := CopyFields(l, p, fs[..4]);
    var l5 := CopyFields(l, p, fs[..5]);
    var l6 := CopyFields(l, p, fs[..6]);
    assert CopyFields(l, p, fs[..1][..0]) == l;
    assert l1 == CopyField(l, p, Status);
    assert l2 == CopyField(l1, p, Title);
    assert l3 == CopyField(l2, p, Url);
    assert l4 == CopyField(l3, p, Description);
    assert l5 == CopyField(l4, p, BucketKey);
    assert l6 == CopyField(l5, p, BucketName);
    assert CopyFields(l, p, fs) == CopyField(l6, p, BucketRegion);
  }

  /** The `forEach` over the listed properties, overwriting those the patch gives. */
  method ApplyPatch(l: FriendLink, p: LinkPatch) returns (r: FriendLink)
    ensures r == Patched(l, p)
  {
    r := l;
    for i := 0 to |PatchFields|
      invariant r == CopyFields(l, p, PatchFields[..i])
    {
      assert PatchFields[..i + 1][..i] == PatchFields[..i];
      r := CopyField(r, p, PatchFields[i]);
    }
    assert PatchFields[..|PatchFields|] == PatchFields;
    CopyingAllFieldsPatches(l, p);
  }

  /** A patch never changes the key or the creation time, and giving nothing changes nothing. */
  lemma PatchKeepsIdentity(l: FriendLink, p: LinkPatch)
    ensures Patched(l, p).linkId == l.linkId && Patched(l, p).createdAt == l.createdAt
    ensures (!p.linkStatus.Given? && !p.linkTitle.Given? && !p.linkUrl.Given? && !p.linkDescription.Given?
             && !p.linkImageBucketKey.Given? && !p.linkImageBucketName.Given?
             && !p.linkImageBucketRegion.Given?) ==> Patched(l, p) == l
  {
  }

  /** Applying the same patch twice is applying it once. */
  lemma PatchIdempotent(l: FriendLink, p: LinkPatch)
    ensures Patched(Patched(l, p), p) == Patched(l, p)
  {
  }

  /** The keys create, updateStatus and delete remove. */
  function Invalidated(id: int): set<string> {
    {AllKey(NS), PageWildcard(NS), TotalPageWildcard(NS), IdKey(NS, id)}
  }

  /** The keys updateFriendLink removes: no page-total key, not even the literal wildcard. */
  function UpdateInvalidated(id: int): set<string> {
    {AllKey(NS), IdKey(NS, id), PageWildcard(NS)}
  }

  /**
   * Both delete sets remove the listing and the one id key, and every page
   * and page-total entry stays with its value.
   */
  lemma InvalidationSparesPages(c: map<string, Entry>, id: int)
    ensures UpdateInvalidated(id) <= Invalidated(id)
    ensures TotalPageWildcard(NS) !in UpdateInvalidated(id)
    ensures forall p, s :: PageKey(NS, p, s) in c ==>
      PageKey(NS, p, s) in c - Invalidated(id) && (c - Invalidated(id))[PageKey(NS, p, s)] == c[PageKey(NS, p, s)]
    ensures forall s :: TotalPageKey(NS, s) in c ==>
      TotalPageKey(NS, s) in c - Invalidated(id) && (c - Invalidated(id))[TotalPageKey(NS, s)] == c[TotalPageKey(NS, s)]
    ensures forall id2 :: IdKey(NS, id2) in c - UpdateInvalidated(id) <==> IdKey(NS, id2) in c && id2 != id
  {
    TemplatesDistinct(NS, id, "", 0, 0, 0);
    forall p, s ensures PageKey(NS, p, s) !in Invalidated(id) {
      TemplatesDistinct(NS, id, "", p, s, 0);
      WildcardIsLiteral(NS, p, s, 0);
    }
    forall s ensures TotalPageKey(NS, s) !in Invalidated(id) {
      TemplatesDistinct(NS, id, "", 0, 0, s);
      WildcardIsLiteral(NS, 0, 0, s);
    }
    forall id2 ensures IdKey(NS, id2) in UpdateInvalidated(id) <==> id2 == id {
      TemplatesDistinct(NS, id2, "", 0, 0, 0);
      if IdKey(NS, id2) == IdKey(NS, id) {
        IdKeyInjective(NS, id2, id);
      }
    }
  }

  class FriendLinkService {
    const redis: Redis
    var rows: map<int, FriendLink>

    /** The table holds each link under its own key. */
    ghost predicate Valid()
      reads this
    {
      KeyedBy(rows, LinkKey)
    }

    /**
     * An id key holds the stored row; the listing key a non-empty listing of
     * the public links; a page key a list of links; a page-total key a count.
     */
    ghost predicate Coherent()
      reads this, redis
    {
      && (forall id :: IdKey(NS, id) in redis.entries ==>
            id in rows && redis.entries[IdKey(NS, id)].value == OneLink(rows[id]))
      && (AllKey(NS) in redis.entries ==>
            var v := redis.entries[AllKey(NS)].value;
            v.Links? && v.links != [] && IsListing(rows, IsPublicLink, LinkKey, LinkStamp, v.links))
      && (forall p, s :: PageKey(NS, p, s) in redis.entries ==> redis.entries[PageKey(NS, p, s)].value.Links?)
      && (forall s :: TotalPageKey(NS, s) in redis.entries ==>
            redis.entries[TotalPageKey(NS, s)].value.Count? && redis.entries[TotalPageKey(NS, s)].value.n >= 0)
    }

    constructor (cache: Redis, table: map<int, FriendLink>)
      requires cache.entries == map[]
      requires KeyedBy(table, LinkKey)
      ensures redis == cache && rows == table
      ensures Valid() && Coherent()
    {
      redis := cache;
      rows := table;
    }

    /** `findAll`: the public links, newest first, through `friendLink:all`. */
    method FindAll() returns (r: Option<seq<FriendLink>>)
      requires Valid() && Coherent()
      modifies redis
      ensures Valid() && Coherent()
      ensures r.Some? ==> r.value != [] && IsListing(rows, IsPublicLink, LinkKey, LinkStamp, r.value)
      ensures r.None? <==> forall k :: k in rows ==> !IsPublicLink(rows[k])
      ensures AllKey(NS) in old(redis.entries) ==>
        redis.entries == old(redis.entries) && r == Some(old(redis.entries)[AllKey(NS)].value.links)
      ensures AllKey(NS) !in old(redis.entries) ==>
        redis.entries == if r.None? then old(redis.entries)
                         else old(redis.entries)[AllKey(NS) := Entry(Links(r.value), TTL)]
    {
      var cached := redis.Get(AllKey(NS));
      if cached.Some? {
        r := Some(cached.value.links);
        SelectionBounded(rows, IsPublicLink, LinkKey, r.value);
        return;
      }
      var xs := SelectNewestFirst(rows, IsPublicLink, LinkKey, LinkStamp);
      SelectionBounded(rows, IsPublicLink, LinkKey, xs);
      if |xs| > 0 {
        var _ := redis.Set(AllKey(NS), Links(xs), TTL);
        AllKeyApart(NS);
        r := Some(xs);
      } else {
        r := None;
      }
    }

    /** `findById`: the stored link, read through `friendLink:id:<id>`. */
    method FindById(id: int) returns (r: Option<FriendLink>)
      requires Valid() && Coherent()
      modifies redis
      ensures Valid() && Coherent()
      ensures r == if id in rows then Some(rows[id]) else None
      ensures redis.entries ==
        if id in rows then Fill(old(redis.entries), IdKey(NS, id), Entry(OneLink(rows[id]), TTL))
        else old(redis.entries)
    {
      var cached := redis.Get(IdKey(NS, id));
      if cached.Some? {
        return Some(cached.value.link);
      }
      if id in rows {
        var _ := redis.Set(IdKey(NS, id), OneLink(rows[id]), TTL);
        IdKeyApart(NS, id);
        r := Some(rows[id]);
      } else {
        r := None;
      }
    }

    /**
     * `findByPage`: a cached page if one is there; otherwise the window of the
     * public listing, returned as an array (never null) and never cached.
     */
    method FindByPage(page: int, pageSize: int) returns (r: Outcome<seq<FriendLink>>, ghost listing: seq<FriendLink>)
      requires Valid() && Coherent()
      ensures PageKey(NS, page, pageSize) in redis.entries ==>
        r == Returned(redis.entries[PageKey(NS, page, pageSize)].value.links)
      ensures PageKey(NS, page, pageSize) !in redis.entries ==>
        && IsListing(rows, IsPublicLink, LinkKey, LinkStamp, listing)
        && r == match Window(listing, Offset(page, pageSize), pageSize)
                case None => Threw
                case Some(w) => Returned(w)
    {
      var cached := redis.Get(PageKey(NS, page, pageSize));
      if cached.Some? {
        return Returned(cached.value.links), [];
      }
      var xs := SelectNewestFirst(rows, IsPublicLink, LinkKey, LinkStamp);
      listing := xs;
      var window := Window(xs, Offset(page, pageSize), pageSize);
      r := if window.None? then Threw else Returned(window.value);
    }

    /** `getTotalPages`: `Math.ceil(count / pageSize)` over all rows, the count cached with expiry 18000. */
    method GetTotalPages(pageSize: int) returns (r: Option<int>)
      requires Valid() && Coherent()
      modifies redis
      ensures Valid() && Coherent()
      ensures TotalPageKey(NS, pageSize) in old(redis.entries) ==>
        && redis.entries == old(redis.entries)
        && r == TotalPages(old(redis.entries)[TotalPageKey(NS, pageSize)].value.n, pageSize)
      ensures TotalPageKey(NS, pageSize) !in old(redis.entries) ==>
        && r == TotalPages(|rows|, pageSize)
        && redis.entries == old(redis.entries)[TotalPageKey(NS, pageSize) := Entry(Count(|rows|), TotalTTL)]
    {
      var key := TotalPageKey(NS, pageSize);
      var cached := redis.Get(key);
      if cached.Some? {
        return TotalPages(cached.value.n, pageSize);
      }
      var total := |rows|;
      var _ := redis.Set(key, Count(total), TotalTTL);
      TotalPageKeyApart(NS, pageSize);
      r := TotalPages(total, pageSize);
    }

    /** The deletes of `createFriendLink`, `updateStatus` and `deleteFriendLink`. */
    method Invalidate(id: int)
      modifies redis
      ensures redis.entries == old(redis.entries) - Invalidated(id)
    {
      var _ := redis.Del(AllKey(NS));
      var _ := redis.Del(PageWildcard(NS));
      var _ := redis.Del(TotalPageWildcard(NS));
      var _ := redis.Del(IdKey(NS, id));
    }

    /** The deletes of `updateFriendLink`. */
    method InvalidateForUpdate(id: int)
      modifies redis
      ensures redis.entries == old(redis.entries) - UpdateInvalidated(id)
    {
      var _ := redis.Del(AllKey(NS));
      var _ := redis.Del(IdKey(NS, id));
      var _ := redis.Del(PageWildcard(NS));
    }

    /** `createFriendLink`: inserts the draft and, when the save answers, deletes the four keys. */
    method CreateFriendLink(draft: FriendLinkDraft, newId: int, now: int, saved: bool) returns (r: Option<FriendLink>)
      requires Valid() && Coherent()
      requires newId !in rows
      modifies this, redis
      ensures Valid() && Coherent()
      ensures r == if saved then Some(NewLink(draft, newId, now)) else None
      ensures rows == if saved then old(rows)[newId := NewLink(draft, newId, now)] else old(rows)
      ensures redis.entries == if saved then old(redis.entries) - Invalidated(newId) else old(redis.entries)
    {
      if !saved {
        return None;
      }
      var link := NewLink(draft, newId, now);
      rows := rows[newId := link];
      Invalidate(newId);
      r := Some(link);
    }

    /**
     * `updateFriendLink`: the link is read through the cache; the seven listed
     * properties the patch gives are copied onto it and it is saved; then the
     * listing, the id key and the literal page wildcard go, and the answer is
     * re-read.
     */
    method UpdateFriendLink(id: int, patch: LinkPatch, saved: bool) returns (r: Option<FriendLink>)
      requires Valid() && Coherent()
      modifies this, redis
      ensures Valid() && Coherent()
      ensures id !in old(rows) ==> r == None && rows == old(rows) && redis.entries == old(redis.entries)
      ensures id in old(rows) && !saved ==>
        && r == None && rows == old(rows)
        && redis.entries == Fill(old(redis.entries), IdKey(NS, id), Entry(OneLink(old(rows)[id]), TTL))
      ensures id in old(rows) && saved ==>
        var updated := Patched(old(rows)[id], patch);
        && r == Some(updated)
        && rows == old(rows)[id := updated]
        && redis.entries == (old(redis.entries) - UpdateInvalidated(id))[IdKey(NS, id) := Entry(OneLink(updated), TTL)]
    {
      var found := FindById(id);
      if found.None? {
        return None;
      }
      var link := ApplyPatch(found.value, patch);
      if !saved {
        return None;
      }
      rows := rows[id := link];
      InvalidateForUpdate(id);
      r := FindById(id);
    }

    /**
     * `updateStatus`: the object it saves names the status `link_status`,
     * which is not a property of the entity, so the save changes no column;
     * the four keys still go and the unchanged link is re-read.
     */
    method UpdateStatus(id: int, status: int, saved: bool) returns (r: Option<FriendLink>)
      requires Valid() && Coherent()
      modifies this, redis
      ensures Valid() && Coherent()
      ensures rows == old(rows)
      ensures id !in old(rows) ==> r == None && redis.entries == old(redis.entries)
      ensures id in old(rows) && !saved ==>
        && r == None
        && redis.entries == Fill(old(redis.entries), IdKey(NS, id), Entry(OneLink(old(rows)[id]), TTL))
      ensures id in old(rows) && saved ==>
        && r == Some(old(rows)[id])
        && redis.entries == (old(redis.entries) - Invalidated(id))[IdKey(NS, id) := Entry(OneLink(old(rows)[id]), TTL)]
    {
      var found := FindById(id);
      if found.None? {
        return None;
      }
      if !saved {
        return None;
      }
      Invalidate(id);
      r := FindById(id);
    }

    /** `deleteFriendLink`: true exactly when a row went; only then are the four keys deleted. */
    method DeleteFriendLink(id: int) returns (ok: bool)
      requires Valid() && Coherent()
      modifies this, redis
      ensures Valid() && Coherent()
      ensures ok <==> id in old(rows)
      ensures rows == old(rows) - {id}
      ensures redis.entries == if ok then old(redis.entries) - Invalidated(id) else old(redis.entries)
    {
      var affected := if id in rows then 1 else 0;
      rows := rows - {id};
      if affected > 0 {
        Invalidate(id);
        ok := true;
      } else {
        ok := false;
      }
    }
  }
}
