/**
 * The friend-link creation endpoint: required fields, an optional logo file
 * uploaded to the object store, and the create input built from both.
 */
module FriendLinkUpload {
  import opened Wrappers
  import opened Entities
  import opened KeyValue
  import opened FriendLinkCache
  import opened Uploads

  /** A response: the status code and, for 201, what the service answered. */
  datatype LinkReply = LinkReply(code: int, created: Option<FriendLink>)

  /** The create input when no file is sent: title, URL and status 0 only. */
  function PlainDraft(title: string, url: string): FriendLinkDraft {
    FriendLinkDraft(title, url, None, Hidden, None, None, None)
  }

  /**
   * The create input after an upload: the logo location, status 0, and the
   * description only when it is truthy.
   */
  function LogoDraft(title: string, url: string, description: Option<string>, at: BlobLocation): FriendLinkDraft {
    FriendLinkDraft(title, url, if TruthyString(description) then description else None, Hidden,
      Some(at.bucketKey), Some(at.bucketName), Some(at.bucketRegion))
  }

  /** Both drafts create hidden links, so a new link never enters a public listing. */
  lemma DraftsAreHidden(title: string, url: string, description: Option<string>, at: BlobLocation, id: int, now: int)
    ensures !IsPublicLink(NewLink(PlainDraft(title, url), id, now))
    ensures !IsPublicLink(NewLink(LogoDraft(title, url, description, at), id, now))
  {
  }

  class FriendLinkController {
    const service: FriendLinkService

    /** How many logos have been sent to the object store. */
    var logoUploads: nat

    constructor (links: FriendLinkService)
      ensures service == links && logoUploads == 0
    {
      service := links;
      logoUploads := 0;
    }

    ghost predicate Valid()
      reads service, service.redis
    {
      service.Valid() && service.Coherent()
    }

    /**
     * `createFriendLink`: 400 without a title or URL; without a file the
     * plain input is created; 400 for an invalid file; 500 when the upload
     * answers nothing; otherwise the input with the logo is created. Every
     * create answers 201, whatever the service returned.
     */
    method CreateFriendLink(file: UploadValue, title: Option<string>, url: Option<string>, description: Option<string>,
                            uploaded: Option<BlobLocation>, newId: int, now: int, saved: bool)
      returns (reply: LinkReply)
      requires Valid()
      requires newId !in service.rows
      modifies this, service, service.redis
      ensures Valid()
      ensures reply.code != 201 ==> service.rows == old(service.rows) && service.redis.entries == old(service.redis.entries)
      ensures !TruthyString(title) || !TruthyString(url) ==> reply == LinkReply(400, None) && logoUploads == old(logoUploads)
      ensures TruthyString(title) && TruthyString(url) && file.Nothing? ==>
        var link := NewLink(PlainDraft(title.value, url.value), newId, now);
        && reply == LinkReply(201, if saved then Some(link) else None)
        && logoUploads == old(logoUploads)
        && service.rows == (if saved then old(service.rows)[newId := link] else old(service.rows))
        && service.redis.entries == (if saved then old(service.redis.entries) - Invalidated(newId) else old(service.redis.entries))
      ensures TruthyString(title) && TruthyString(url) && !file.Nothing? && !IsValidUploadFile(file) ==>
        reply == LinkReply(400, None) && logoUploads == old(logoUploads)
      ensures TruthyString(title) && TruthyString(url) && IsValidUploadFile(file) ==>
        && logoUploads == old(logoUploads) + 1
        && (uploaded.None? ==> reply == LinkReply(500, None))
        && (uploaded.Some? ==>
              var link := NewLink(LogoDraft(title.value, url.value, description, uploaded.value), newId, now);
              && reply == LinkReply(201, if saved then Some(link) else None)
              && service.rows == (if saved then old(service.rows)[newId := link] else old(service.rows))
              && service.redis.entries == (if saved then old(service.redis.entries) - Invalidated(newId) else old(service.redis.entries)))
    {
      if !TruthyString(title) || !TruthyString(url) {
        return LinkReply(400, None);
      }
      if file.Nothing? {
        var result := service.CreateFriendLink(PlainDraft(title.value, url.value), newId, now, saved);
        return LinkReply(201, result);
      }
      if !IsValidUploadFile(file) {
        return LinkReply(400, None);
      }
      logoUploads := logoUploads + 1;
      if uploaded.None? {
        return LinkReply(500, None);
      }
      var draft := FriendLinkDraft(title.value, url.value, None, Hidden,
        Some(uploaded.value.bucketKey), Some(uploaded.value.bucketName), Some(uploaded.value.bucketRegion));
      if TruthyString(description) {
        draft := draft.(linkDescription := description);
      }
      var result := service.CreateFriendLink(draft, newId, now, saved);
      reply := LinkReply(201, result);
    }
  }
}
