/**
 * The cached article service: reads go through the `article:` keys of the
 * shared cache, writes go to the article table and then delete the listing,
 * the id key and the two literal wildcard keys.
 */
module ArticleCache {
  import opened Wrappers
  import opened Entities
  import opened CacheKeys
  import opened KeyValue
  import opened Query

  const NS: string := "article"

  /** Every article entry is written with `EX 18000`. */
  const TTL: int := 18000

  /** The column values a create request supplies. */
  datatype ArticleDraft = ArticleDraft(
    articleTitle: string,
    articleBucketName: string,
    articleBucketRegion: string,
    articleBucketKey: string,
    articleStatus: Option<int>)

  /**
   * The row `save(create(draft))` inserts under the generated key `id` at time
   * `now`: the view count and, when none is given, the status take their
   * column defaults.
   */
  function NewArticle(d: ArticleDraft, id: int, now: int): Article {
    Article(id, d.articleTitle, d.articleBucketName, d.articleBucketRegion, d.articleBucketKey,
      now, 0, if d.articleStatus.Some? then d.articleStatus.value else Hidden)
  }

  /** The update input: the target id and five optional properties. */
  datatype ArticlePatch = ArticlePatch(
    articleId: int,
    articleStatus: Arg<int>,
    articleTitle: Arg<string>,
    articleBucketName: Arg<string>,
    articleBucketRegion: Arg<string>,
    articleBucketKey: Arg<string>)

  /** The properties `update` copies from its input, in the order it lists them. */
  datatype PatchField = Status | Title | BucketName | BucketRegion | BucketKey

  const PatchFields: seq<PatchField> := [Status, Title, BucketName, BucketRegion, BucketKey]

  /** A property value that is neither undefined nor null replaces the current one. */
  function Take<T>(arg: Arg<T>, current: T): T {
    if arg.Given? then arg.value else current
  }

  /** The specification of `update`'s field copy: each listed property the patch gives replaces the stored one. */
  function Patched(a: Article, p: ArticlePatch): Article {
    a.(articleStatus := Take(p.articleStatus, a.articleStatus),
       articleTitle := Take(p.articleTitle, a.articleTitle),
       articleBucketName := Take(p.articleBucketName, a.articleBucketName),
       articleBucketRegion := Take(p.articleBucketRegion, a.articleBucketRegion),
       articleBucketKey := Take(p.articleBucketKey, a.articleBucketKey))
  }

  /** One step of the copy loop. */
  function CopyField(a: Article, p: ArticlePatch, f: PatchField): Article {
    match f
    case Status => a.(articleStatus := Take(p.articleStatus, a.articleStatus))
    case Title => a.(articleTitle := Take(p.articleTitle, a.articleTitle))
    case BucketName => a.(articleBucketName := Take(p.articleBucketName, a.articleBucketName))
    case BucketRegion => a.(articleBucketRegion := Take(p.articleBucketRegion, a.articleBucketRegion))
    case BucketKey => a.(articleBucketKey := Take(p.articleBucketKey, a.articleBucketKey))
  }

  /** The article after the loop has visited the fields `fs`, in order. */
  function CopyFields(a: Article, p: ArticlePatch, fs: seq<PatchField>): Article
    decreases |fs|
  {
    if fs == [] then a else CopyField(CopyFields(a, p, fs[..|fs| - 1]), p, fs[|fs| - 1])
  }

  lemma CopyingAllFieldsPatches(a: Article, p: ArticlePatch)
    ensures CopyFields(a, p, PatchFields) == Patched(a, p)
  {
    var fs := PatchFields;
    assert fs[..1][..0] == [] && fs[..1][0] == Status;
    assert fs[..2][..1] == fs[..1] && fs[..2][1] == Title;
    assert fs[..3][..2] == fs[..2] && fs[..3][2] == BucketName;
    assert fs[..4][..3] == fs[..3] && fs[..4][3] == BucketRegion;
    assert fs[..4] == fs[..|fs| - 1] && fs[4] == BucketKey;
    var a1 := CopyFields(a, p, fs[..1]);
    var a2 := CopyFields(a, p, fs[..2]);
    var a3 := CopyFields(a, p, fs[..3]);
    var a4 := CopyFields(a, p, fs[..4]);
    assert CopyFields(a, p, fs[..1][..0]) == a;
    assert a1 == CopyField(a, p, Status);
    assert a2 == CopyField(a1, p, Title);
    assert a3 == CopyField(a2, p, BucketName);
    assert a4 == CopyField(a3, p, BucketRegion);
    assert CopyFields(a, p, fs) == CopyField(a4, p, BucketKey);
  }

  /** The `forEach` over the listed properties, overwriting those the patch gives. */
  method ApplyPatch(a: Article, p: ArticlePatch) returns (r: Article)
    ensures r == Patched(a, p)
  {
    r := a;
    for i := 0 to |PatchFields|
      invariant r == CopyFields(a, p, PatchFields[..i])
    {
      assert PatchFields[..i + 1][..i] == PatchFields[..i];
      r := CopyField(r, p, PatchFields[i]);
    }
    assert PatchFields[..|PatchFields|] == PatchFields;
    CopyingAllFieldsPatches(a, p);
  }

  /** A patch never changes the key, the creation time or the view count, and giving nothing changes nothing. */
  lemma PatchKeepsIdentity(a: Article, p: ArticlePatch)
    ensures Patched(a, p).articleId == a.articleId
    ensures Patched(a, p).createdAt == a.createdAt
    ensures Patched(a, p).articleViewCount == a.articleViewCount
    ensures (!p.articleStatus.Given? && !p.articleTitle.Given? && !p.articleBucketName.Given?
             && !p.articleBucketRegion.Given? && !p.articleBucketKey.Given?) ==> Patched(a, p) == a
  {
  }

  /** Applying the same patch twice is applying it once. */
  lemma PatchIdempotent(a: Article, p: ArticlePatch)
    ensures Patched(Patched(a, p), p) == Patched(a, p)
  {
  }

  /** The keys every article write deletes after a truthy store result. */
  function Invalidated(id: int): set<string> {
    {AllKey(NS), PageWildcard(NS), TotalPageWildcard(NS), IdKey(NS, id)}
  }

  /**
   * The deletes after a write remove the id key of the written article and the
   * listing, and nothing else a read path writes: every cached page and page
   * total stays, with its value.
   */
  lemma InvalidationSparesPages(c: map<string, Entry>, id: int)
    ensures forall p, s :: PageKey(NS, p, s) in c ==>
      PageKey(NS, p, s) in c - Invalidated(id) && (c - Invalidated(id))[PageKey(NS, p, s)] == c[PageKey(NS, p, s)]
    ensures forall s :: TotalPageKey(NS, s) in c ==>
      TotalPageKey(NS, s) in c - Invalidated(id) && (c - Invalidated(id))[TotalPageKey(NS, s)] == c[TotalPageKey(NS, s)]
    ensures forall id2 :: IdKey(NS, id2) in c - Invalidated(id) <==> IdKey(NS, id2) in c && id2 != id
    ensures AllKey(NS) !in c - Invalidated(id)
  {
    forall p, s ensures PageKey(NS, p, s) !in Invalidated(id) {
      TemplatesDistinct(NS, id, "", p, s, 0);
      WildcardIsLiteral(NS, p, s, 0);
    }
    forall s ensures TotalPageKey(NS, s) !in Invalidated(id) {
      TemplatesDistinct(NS, id, "", 0, 0, s);
      WildcardIsLiteral(NS, 0, 0, s);
    }
    forall id2 ensures IdKey(NS, id2) in Invalidated(id) <==> id2 == id {
      TemplatesDistinct(NS, id2, "", 0, 0, 0);
      if IdKey(NS, id2) == IdKey(NS, id) {
        IdKeyInjective(NS, id2, id);
      }
    }
  }

  /**
   * A cached page does not follow a create: once a public article newer than
   * every stored one is added, the first page of the store's listing starts
   * with it, so a first page cached from the old listing, which the create's
   * deletes leave in place, no longer matches the store.
   */
  lemma CreateOutdatesFirstPage(rows: map<int, Article>, a: Article, before: seq<Article>,
                                after: seq<Article>, size: int)
    requires KeyedBy(rows, ArticleKey) && a.articleId !in rows && IsPublicArticle(a)
    requires forall k :: k in rows ==> rows[k].createdAt < a.createdAt
    requires IsListing(rows, IsPublicArticle, ArticleKey, ArticleStamp, before) && before != []
    requires IsListing(rows[a.articleId := a], IsPublicArticle, ArticleKey, ArticleStamp, after)
    requires size >= 1
    ensures PageOf(after, 1, size) != [] && PageOf(after, 1, size)[0] == a
    ensures PageOf(after, 1, size) != PageOf(before, 1, size)
  {
    var rows2 := rows[a.articleId := a];
    assert rows2[a.articleId] in after;
    var j :| 0 <= j < |after| && after[j] == a;
    assert ArticleStamp(after[0]) >= a.createdAt by {
      if j > 0 {
        assert ArticleStamp(after[j]) <= ArticleStamp(after[0]);
      }
    }
    assert ArticleKey(after[0]) == a.articleId;
    assert after[0] == a;
    assert PageOf(after, 1, size)[0] == after[0];
    assert PageOf(before, 1, size)[0] == before[0];
    assert ArticleKey(before[0]) in rows;
  }

  /**
   * The page total counts hidden and in-review rows too, so it is never
   * smaller than the number of non-empty pages of the public listing.
   */
  lemma TotalCoversPublicPages(rows: map<int, Article>, listing: seq<Article>, size: int, page: int)
    requires IsListing(rows, IsPublicArticle, ArticleKey, ArticleStamp, listing)
    requires size >= 1 && page >= 1 && PageOf(listing, page, size) != []
    ensures TotalPages(|rows|, size).Some? && page <= TotalPages(|rows|, size).value
  {
    SelectionBounded(rows, IsPublicArticle, ArticleKey, listing);
    NonEmptyPageWithinTotal(listing, size, page, |rows|);
  }

  class ArticleService {
    const redis: Redis
    var rows: map<int, Article>

    /** The table holds each article under its own key. */
    ghost predicate Valid()
      reads this
    {
      KeyedBy(rows, ArticleKey)
    }

    /**
     * What the cache holds under the article keys: an id key holds the stored
     * row; the listing key holds a non-empty listing of the public rows; a
     * page key holds a non-empty list; a page-total key holds a count.
     */
    ghost predicate Coherent()
      reads this, redis
    {
      && (forall id :: IdKey(NS, id) in redis.entries ==>
            id in rows && redis.entries[IdKey(NS, id)].value == OneArticle(rows[id]))
      && (AllKey(NS) in redis.entries ==>
            var v := redis.entries[AllKey(NS)].value;
            v.Articles? && v.articles != [] && IsListing(rows, IsPublicArticle, ArticleKey, ArticleStamp, v.articles))
      && (forall p, s :: PageKey(NS, p, s) in redis.entries ==>
            redis.entries[PageKey(NS, p, s)].value.Articles? && redis.entries[PageKey(NS, p, s)].value.articles != [])
      && (forall s :: TotalPageKey(NS, s) in redis.entries ==>
            redis.entries[TotalPageKey(NS, s)].value.Count? && redis.entries[TotalPageKey(NS, s)].value.n >= 0)
    }

    constructor (cache: Redis, table: map<int, Article>)
      requires cache.entries == map[]
      requires KeyedBy(table, ArticleKey)
      ensures redis == cache && rows == table
      ensures Valid() && Coherent()
    {
      redis := cache;
      rows := table;
    }

    /** `findAll`: the public articles, newest first, through `article:all`. */
    method FindAll() returns (r: Option<seq<Article>>)
      requires Valid() && Coherent()
      modifies redis
      ensures Valid() && Coherent()
      ensures r.Some? ==> r.value != [] && IsListing(rows, IsPublicArticle, ArticleKey, ArticleStamp, r.value)
      ensures r.None? <==> forall k :: k in rows ==> !IsPublicArticle(rows[k])
      ensures AllKey(NS) in old(redis.entries) ==>
        redis.entries == old(redis.entries) && r == Some(old(redis.entries)[AllKey(NS)].value.articles)
      ensures AllKey(NS) !in old(redis.entries) ==>
        redis.entries == if r.None? then old(redis.entries)
                         else old(redis.entries)[AllKey(NS) := Entry(Articles(r.value), TTL)]
    {
      var cached := redis.Get(AllKey(NS));
      if cached.Some? {
        r := Some(cached.value.articles);
        SelectionBounded(rows, IsPublicArticle, ArticleKey, r.value);
        return;
      }
      var xs := SelectNewestFirst(rows, IsPublicArticle, ArticleKey, ArticleStamp);
      SelectionBounded(rows, IsPublicArticle, ArticleKey, xs);
      if |xs| > 0 {
        var _ := redis.Set(AllKey(NS), Articles(xs), TTL);
        AllKeyApart(NS);
        r := Some(xs);
      } else {
        r := None;
      }
    }

    /** `findById`: the stored article, read through `article:id:<id>`. */
    method FindById(id: int) returns (r: Option<Article>)
      requires Valid() && Coherent()
      modifies redis
      ensures Valid() && Coherent()
      ensures r == if id in rows then Some(rows[id]) else None
      ensures redis.entries ==
        if id in rows then Fill(old(redis.entries), IdKey(NS, id), Entry(OneArticle(rows[id]), TTL))
        else old(redis.entries)
    {
      var cached := redis.Get(IdKey(NS, id));
      if cached.Some? {
        return Some(cached.value.article);
      }
      if id in rows {
        var _ := redis.Set(IdKey(NS, id), OneArticle(rows[id]), TTL);
        IdKeyApart(NS, id);
        r := Some(rows[id]);
      } else {
        r := None;
      }
    }

    /**
     * `findByPage`: a cached page as it was stored, or the window
     * `skip (page - 1) * pageSize, take pageSize` of the public listing,
     * cached only when it is not empty.
     */
    method FindByPage(page: int, pageSize: int) returns (r: Outcome<Option<seq<Article>>>, ghost listing: seq<Article>)
      requires Valid() && Coherent()
      modifies redis
      ensures Valid() && Coherent()
      ensures r.Returned? && r.value.Some? ==> r.value.value != []
      ensures PageKey(NS, page, pageSize) in old(redis.entries) ==>
        && redis.entries == old(redis.entries)
        && r == Returned(Some(old(redis.entries)[PageKey(NS, page, pageSize)].value.articles))
      ensures PageKey(NS, page, pageSize) !in old(redis.entries) ==>
        && IsListing(rows, IsPublicArticle, ArticleKey, ArticleStamp, listing)
        && match Window(listing, Offset(page, pageSize), pageSize)
           case None => r == Threw && redis.entries == old(redis.entries)
           case Some(w) =>
             && r == Returned(if w == [] then None else Some(w))
             && redis.entries == if w == [] then old(redis.entries)
                                 else old(redis.entries)[PageKey(NS, page, pageSize) := Entry(Articles(w), TTL)]
    {
      var key := PageKey(NS, page, pageSize);
      var cached := redis.Get(key);
      if cached.Some? {
        return Returned(Some(cached.value.articles)), [];
      }
      var xs := SelectNewestFirst(rows, IsPublicArticle, ArticleKey, ArticleStamp);
      listing := xs;
      var window := Window(xs, Offset(page, pageSize), pageSize);
      if window.None? {
        return Threw, listing;
      }
      var w := window.value;
      if |w| > 0 {
        var _ := redis.Set(key, Articles(w), TTL);
        PageKeyApart(NS, page, pageSize);
        r := Returned(Some(w));
      } else {
        r := Returned(None);
      }
    }

    /**
     * `getTotalPages`: `Math.ceil(count / pageSize)`, where the count is of all
     * rows whatever their status; the count itself, not the page total, is
     * what `article:totalPage:<pageSize>` caches.
     */
    method GetTotalPages(pageSize: int) returns (r: Option<int>)
      requires Valid() && Coherent()
      modifies redis
      ensures Valid() && Coherent()
      ensures TotalPageKey(NS, pageSize) in old(redis.entries) ==>
        && redis.entries == old(redis.entries)
        && r == TotalPages(old(redis.entries)[TotalPageKey(NS, pageSize)].value.n, pageSize)
      ensures TotalPageKey(NS, pageSize) !in old(redis.entries) ==>
        && r == TotalPages(|rows|, pageSize)
        && redis.entries == old(redis.entries)[TotalPageKey(NS, pageSize) := Entry(Count(|rows|), TTL)]
    {
      var key := TotalPageKey(NS, pageSize);
      var cached := redis.Get(key);
      if cached.Some? {
        return TotalPages(cached.value.n, pageSize);
      }
      var total := |rows|;
      var _ := redis.Set(key, Count(total), TTL);
      TotalPageKeyApart(NS, pageSize);
      r := TotalPages(total, pageSize);
    }

    /** The four deletes of a write path. */
    method Invalidate(id: int)
      modifies redis
      ensures redis.entries == old(redis.entries) - Invalidated(id)
    {
      var _ := redis.Del(AllKey(NS));
      var _ := redis.Del(PageWildcard(NS));
      var _ := redis.Del(TotalPageWildcard(NS));
      var _ := redis.Del(IdKey(NS, id));
    }

    /**
     * `create`: inserts the draft under the key the table generates and, when
     * the save answers, deletes the four invalidation keys.
     */
    method Create(draft: ArticleDraft, newId: int, now: int, saved: bool) returns (r: Option<Article>)
      requires Valid() && Coherent()
      requires newId !in rows
      modifies this, redis
      ensures Valid() && Coherent()
      ensures r == if saved then Some(NewArticle(draft, newId, now)) else None
      ensures rows == if saved then old(rows)[newId := NewArticle(draft, newId, now)] else old(rows)
      ensures redis.entries == if saved then old(redis.entries) - Invalidated(newId) else old(redis.entries)
    {
      if !saved {
        return None;
      }
      var article := NewArticle(draft, newId, now);
      rows := rows[newId := article];
      Invalidate(newId);
      InvalidationSparesPages(old(redis.entries), newId);
      r := Some(article);
    }

    /**
     * `update`: the article is read through the cache; a missing one answers
     * null with nothing written. Otherwise the patched article is saved, the
     * invalidation keys go, and the answer is re-read, which caches it again.
     */
    method Update(patch: ArticlePatch, saved: bool) returns (r: Option<Article>)
      requires Valid() && Coherent()
      modifies this, redis
      ensures Valid() && Coherent()
      ensures patch.articleId !in old(rows) ==>
        r == None && rows == old(rows) && redis.entries == old(redis.entries)
      ensures patch.articleId in old(rows) && !saved ==>
        && r == None && rows == old(rows)
        && redis.entries == Fill(old(redis.entries), IdKey(NS, patch.articleId),
                                 Entry(OneArticle(old(rows)[patch.articleId]), TTL))
      ensures patch.articleId in old(rows) && saved ==>
        var updated := Patched(old(rows)[patch.articleId], patch);
        && r == Some(updated)
        && rows == old(rows)[patch.articleId := updated]
        && redis.entries == (old(redis.entries) - Invalidated(patch.articleId))[IdKey(NS, patch.articleId) := Entry(OneArticle(updated), TTL)]
    {
      var id := patch.articleId;
      var found := FindById(id);
      if found.None? {
        return None;
      }
      var article := ApplyPatch(found.value, patch);
      if !saved {
        return None;
      }
      ghost var before := redis.entries;
      rows := rows[id := article];
      Invalidate(id);
      InvalidationSparesPages(before, id);
      r := FindById(id);
    }

    /**
     * `updateStatus`: after an existence check through the cache, saves the
     * status onto the stored row, deletes the invalidation keys and re-reads.
     */
    method UpdateStatus(id: int, status: int, saved: bool) returns (r: Option<Article>)
      requires Valid() && Coherent()
      modifies this, redis
      ensures Valid() && Coherent()
      ensures id !in old(rows) ==> r == None && rows == old(rows) && redis.entries == old(redis.entries)
      ensures id in old(rows) && !saved ==>
        && r == None && rows == old(rows)
        && redis.entries == Fill(old(redis.entries), IdKey(NS, id), Entry(OneArticle(old(rows)[id]), TTL))
      ensures id in old(rows) && saved ==>
        var updated := old(rows)[id].(articleStatus := status);
        && r == Some(updated)
        && rows == old(rows)[id := updated]
        && redis.entries == (old(redis.entries) - Invalidated(id))[IdKey(NS, id) := Entry(OneArticle(updated), TTL)]
    {
      var found := FindById(id);
      if found.None? {
        return None;
      }
      if !saved {
        return None;
      }
      ghost var before := redis.entries;
      rows := rows[id := rows[id].(articleStatus := status)];
      Invalidate(id);
      InvalidationSparesPages(before, id);
      r := FindById(id);
    }

    /** `delete`: true exactly when one row went; only then are the invalidation keys deleted. */
    method Delete(id: int) returns (ok: bool)
      requires Valid() && Coherent()
      modifies this, redis
      ensures Valid() && Coherent()
      ensures ok <==> id in old(rows)
      ensures rows == old(rows) - {id}
      ensures redis.entries == if ok then old(redis.entries) - Invalidated(id) else old(redis.entries)
    {
      var affected := if id in rows then 1 else 0;
      rows := rows - {id};
      if affected == 1 {
        Invalidate(id);
        InvalidationSparesPages(old(redis.entries), id);
        ok := true;
      } else {
        ok := false;
      }
    }
  }
}
