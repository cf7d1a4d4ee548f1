/**
 * The article API: argument checks in front of the cached article service,
 * the mapping of service results to status codes, and the order of the
 * external calls when an article is deleted.
 */
module ArticleApi {
  import opened Wrappers
  import opened Entities
  import opened KeyValue
  import opened CacheKeys
  import opened Query
  import opened ArticleCache

  /** A response: the status code and the articles it carries. */
  datatype Reply = Reply(code: int, data: seq<Article>)

  /** The page-total response: 400 carries no number. */
  datatype TotalReply = TotalReply(code: int, totalPages: Option<int>)

  /** A call that leaves the process: a blob delete at the object store or a row delete at the table. */
  datatype ExternalCall =
    | DeleteBlob(region: string, bucket: string, key: string)
    | DeleteRow(id: int)

  /** The list answer: 200 with a non-empty result, otherwise 404 with no data. */
  function ListReply(result: Option<seq<Article>>): (reply: Reply)
    ensures reply.code == 200 || reply.code == 404
    ensures reply.code == 200 <==> result.Some? && result.value != []
    ensures reply.data == if reply.code == 200 then result.value else []
  {
    if result.Some? && |result.value| > 0 then Reply(200, result.value) else Reply(404, [])
  }

  /**
   * The status check of `updateArticle`: a truthy status that is not one of
   * the enum's values is refused; 0, null and an absent status pass because
   * they are falsy.
   */
  predicate StatusRefused(status: Arg<int>) {
    status.Given? && status.value != 0 && !IsStatus(status.value)
  }

  /** Every stored article carries one of the enum's statuses. */
  ghost predicate StatusesValid(rows: map<int, Article>) {
    forall k :: k in rows ==> IsStatus(rows[k].articleStatus)
  }

  /** A patch that passes the status check keeps every stored status valid. */
  lemma PatchKeepsStatusValid(rows: map<int, Article>, p: ArticlePatch)
    requires StatusesValid(rows) && !StatusRefused(p.articleStatus) && p.articleId in rows
    ensures StatusesValid(rows[p.articleId := Patched(rows[p.articleId], p)])
  {
    var a := rows[p.articleId];
    assert IsStatus(Patched(a, p).articleStatus) by {
      if p.articleStatus.Given? && p.articleStatus.value == 0 {
        assert Patched(a, p).articleStatus == Hidden;
      }
    }
  }

  class ArticleResolver {
    const service: ArticleService

    /** The external calls made so far, in order. */
    var calls: seq<ExternalCall>

    constructor (articles: ArticleService)
      ensures service == articles && calls == []
    {
      service := articles;
      calls := [];
    }

    /** The service's table and cache agree. */
    ghost predicate Valid()
      reads service, service.redis
    {
      service.Valid() && service.Coherent()
    }

    /** `getAllArticle`: 200 with the public articles newest first, or 404. */
    method GetAllArticle() returns (reply: Reply)
      requires Valid()
      modifies service.redis
      ensures Valid()
      ensures reply.code == 200 <==> exists k :: k in service.rows && IsPublicArticle(service.rows[k])
      ensures reply.code == 200 ==> IsListing(service.rows, IsPublicArticle, ArticleKey, ArticleStamp, reply.data)
      ensures reply.code == 404 ==> reply.data == []
      ensures AllKey(NS) in old(service.redis.entries) ==> service.redis.entries == old(service.redis.entries)
      ensures AllKey(NS) !in old(service.redis.entries) ==>
        service.redis.entries == if reply.code == 404 then old(service.redis.entries)
                                 else old(service.redis.entries)[AllKey(NS) := Entry(Articles(reply.data), TTL)]
    {
      var result := service.FindAll();
      reply := ListReply(result);
    }

    /** `getArticleByPage`: 200 with a non-empty page, 404 for an empty one; page and size are not checked. */
    method GetArticleByPage(page: int, pageSize: int) returns (reply: Outcome<Reply>, ghost listing: seq<Article>)
      requires Valid()
      modifies service.redis
      ensures Valid()
      ensures PageKey(NS, page, pageSize) in old(service.redis.entries) ==>
        && service.redis.entries == old(service.redis.entries)
        && reply == Returned(ListReply(Some(old(service.redis.entries)[PageKey(NS, page, pageSize)].value.articles)))
      ensures PageKey(NS, page, pageSize) !in old(service.redis.entries) ==>
        && IsListing(service.rows, IsPublicArticle, ArticleKey, ArticleStamp, listing)
        && match Window(listing, Offset(page, pageSize), pageSize)
           case None => reply == Threw && service.redis.entries == old(service.redis.entries)
           case Some(w) =>
             && reply == Returned(ListReply(Some(w)))
             && service.redis.entries == if w == [] then old(service.redis.entries)
                                         else old(service.redis.entries)[PageKey(NS, page, pageSize) := Entry(Articles(w), TTL)]
    {
      var result;
      result, listing := service.FindByPage(page, pageSize);
      if result.Threw? {
        return Threw, listing;
      }
      reply := Returned(ListReply(result.value));
    }

    /** `getArticleTotalPages`: 400 for a page size that is not positive, before the service is asked. */
    method GetArticleTotalPages(pageSize: int) returns (reply: TotalReply)
      requires Valid()
      modifies service.redis
      ensures Valid()
      ensures pageSize <= 0 ==> reply == TotalReply(400, None) && service.redis.entries == old(service.redis.entries)
      ensures pageSize > 0 ==>
        && reply.code == 200 && reply.totalPages.Some?
        && var count := if TotalPageKey(NS, pageSize) in old(service.redis.entries)
                        then old(service.redis.entries)[TotalPageKey(NS, pageSize)].value.n
                        else |service.rows|;
           reply.totalPages == TotalPages(count, pageSize)
      ensures pageSize > 0 && TotalPageKey(NS, pageSize) !in old(service.redis.entries) ==>
        service.redis.entries == old(service.redis.entries)[TotalPageKey(NS, pageSize) := Entry(Count(|service.rows|), TTL)]
      ensures pageSize > 0 && TotalPageKey(NS, pageSize) in old(service.redis.entries) ==>
        service.redis.entries == old(service.redis.entries)
    {
      if pageSize <= 0 {
        return TotalReply(400, None);
      }
      var result := service.GetTotalPages(pageSize);
      reply := TotalReply(200, result);
    }

    /** `getArticleById`: 200 with the article, or 404. */
    method GetArticleById(id: int) returns (reply: Reply)
      requires Valid()
      modifies service.redis
      ensures Valid()
      ensures reply == if id in service.rows then Reply(200, [service.rows[id]]) else Reply(404, [])
      ensures service.redis.entries ==
        if id in service.rows then Fill(old(service.redis.entries), IdKey(NS, id), Entry(OneArticle(service.rows[id]), TTL))
        else old(service.redis.entries)
    {
      var result := service.FindById(id);
      reply := if result.Some? then Reply(200, [result.value]) else Reply(404, []);
    }

    /** `createArticle`: the input goes to the service unchecked; 200 with the article, or 500. */
    method CreateArticle(draft: ArticleDraft, newId: int, now: int, saved: bool) returns (reply: Reply)
      requires Valid()
      requires newId !in service.rows
      modifies service, service.redis
      ensures Valid()
      ensures reply == if saved then Reply(200, [NewArticle(draft, newId, now)]) else Reply(500, [])
      ensures service.rows == if saved then old(service.rows)[newId := NewArticle(draft, newId, now)] else old(service.rows)
      ensures service.redis.entries ==
        if saved then old(service.redis.entries) - Invalidated(newId) else old(service.redis.entries)
    {
      var result := service.Create(draft, newId, now, saved);
      reply := if result.Some? then Reply(200, [result.value]) else Reply(500, []);
    }

    /**
     * `updateArticle`: 400 for a falsy id or a truthy status outside the
     * enum, before the service is called; then 200 with the updated article,
     * or 500. Stored statuses stay valid.
     */
    method UpdateArticle(patch: ArticlePatch, saved: bool) returns (reply: Reply)
      requires Valid()
      modifies service, service.redis
      ensures Valid()
      ensures patch.articleId == 0 || StatusRefused(patch.articleStatus) ==>
        reply == Reply(400, []) && service.rows == old(service.rows) && service.redis.entries == old(service.redis.entries)
      ensures patch.articleId != 0 && !StatusRefused(patch.articleStatus) ==>
        && (reply.code == 200 <==> patch.articleId in old(service.rows) && saved)
        && (reply.code == 200 ==> reply.data == [Patched(old(service.rows)[patch.articleId], patch)])
        && (reply.code != 200 ==> reply == Reply(500, []) && service.rows == old(service.rows))
        && (reply.code == 200 ==> service.rows == old(service.rows)[patch.articleId := reply.data[0]])
      ensures StatusesValid(old(service.rows)) ==> StatusesValid(service.rows)
    {
      if patch.articleId == 0 {
        return Reply(400, []);
      }
      if StatusRefused(patch.articleStatus) {
        return Reply(400, []);
      }
      if patch.articleId in service.rows && StatusesValid(service.rows) {
        PatchKeepsStatusValid(service.rows, patch);
      }
      var result := service.Update(patch, saved);
      reply := if result.Some? then Reply(200, [result.value]) else Reply(500, []);
    }

    /** `updateArticleStatus`: 400 for any status outside the enum; then 200 or 500. Stored statuses stay valid. */
    method UpdateArticleStatus(id: int, status: int, saved: bool) returns (reply: Reply)
      requires Valid()
      modifies service, service.redis
      ensures Valid()
      ensures !IsStatus(status) ==>
        reply == Reply(400, []) && service.rows == old(service.rows) && service.redis.entries == old(service.redis.entries)
      ensures IsStatus(status) ==>
        && (reply.code == 200 <==> id in old(service.rows) && saved)
        && (reply.code == 200 ==>
              && reply.data == [old(service.rows)[id].(articleStatus := status)]
              && service.rows == old(service.rows)[id := reply.data[0]])
        && (reply.code != 200 ==> reply == Reply(500, []) && service.rows == old(service.rows))
      ensures StatusesValid(old(service.rows)) ==> StatusesValid(service.rows)
    {
      if !IsStatus(status) {
        return Reply(400, []);
      }
      var result := service.UpdateStatus(id, status, saved);
      reply := if result.Some? then Reply(200, [result.value]) else Reply(500, []);
    }

    /**
     * `deleteArticle`: 404 with no external call for an unknown id;
     * otherwise the blob is deleted first and the row next. The blob
     * delete's answer is never read, so it is no input here, and the answer
     * follows the row delete alone.
     */
    method DeleteArticle(id: int) returns (reply: Reply)
      requires Valid()
      modifies this, service, service.redis
      ensures Valid()
      ensures id !in old(service.rows) ==>
        && reply == Reply(404, []) && calls == old(calls)
        && service.rows == old(service.rows) && service.redis.entries == old(service.redis.entries)
      ensures id in old(service.rows) ==>
        var a := old(service.rows)[id];
        && reply == Reply(200, [])
        && calls == old(calls) + [DeleteBlob(a.articleBucketRegion, a.articleBucketName, a.articleBucketKey), DeleteRow(id)]
        && service.rows == old(service.rows) - {id}
        && service.redis.entries ==
             Fill(old(service.redis.entries), IdKey(NS, id), Entry(OneArticle(a), TTL)) - Invalidated(id)
    {
      var article := service.FindById(id);
      if article.None? {
        return Reply(404, []);
      }
      var a := article.value;
      calls := calls + [DeleteBlob(a.articleBucketRegion, a.articleBucketName, a.articleBucketKey)];
      calls := calls + [DeleteRow(id)];
      var result := service.Delete(id);
      reply := if result then Reply(200, []) else Reply(500, []);
    }
  }
}
