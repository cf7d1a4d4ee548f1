/**
 * Row shapes of the entities the cached services store, and the status enum
 * shared by articles and friend links. Timestamps are whole numbers (seconds or
 * milliseconds, only their order matters); `updatedAt` is not modelled.
 */
module Entities {
  import opened Wrappers

  /** The status enum `{Hidden = 0, Public = 1, Reviewing = 2}`. */
  const Hidden: int := 0
  const Public: int := 1
  const Reviewing: int := 2

  /** `Object.values(Status).includes(n)` for a numeric enum. */
  predicate IsStatus(n: int) {
    n == Hidden || n == Public || n == Reviewing
  }

  datatype Article = Article(
    articleId: int,
    articleTitle: string,
    articleBucketName: string,
    articleBucketRegion: string,
    articleBucketKey: string,
    createdAt: int,
    articleViewCount: int,
    articleStatus: int)

  /** The row a friend link is stored as; description and logo location are nullable columns. */
  datatype FriendLink = FriendLink(
    linkId: int,
    linkTitle: string,
    linkUrl: string,
    linkDescription: Option<string>,
    createdAt: int,
    linkStatus: int,
    linkImageBucketKey: Option<string>,
    linkImageBucketName: Option<string>,
    linkImageBucketRegion: Option<string>)

  datatype Admin = Admin(
    adminId: int,
    adminName: string,
    adminPasswordHash: string,
    isActive: bool,
    createdAt: int)

  /** The friend-link row of the older server, whose properties are named after its columns. */
  datatype LegacyLink = LegacyLink(
    link_id: int,
    link_title: string,
    link_url: string,
    link_image_path: Option<string>,
    link_description: Option<string>,
    created_at: int,
    link_status: int)

  /** The single row of site counters. */
  datatype SiteData = SiteData(id: int, visitCount: int, likeCount: int)

  function ArticleKey(a: Article): int { a.articleId }
  function ArticleStamp(a: Article): int { a.createdAt }
  predicate IsPublicArticle(a: Article) { a.articleStatus == Public }

  function LinkKey(l: FriendLink): int { l.linkId }
  function LinkStamp(l: FriendLink): int { l.createdAt }
  predicate IsPublicLink(l: FriendLink) { l.linkStatus == Public }

  function AdminKey(a: Admin): int { a.adminId }
  function AdminStamp(a: Admin): int { a.createdAt }

  function LegacyKey(l: LegacyLink): int { l.link_id }
  function LegacyStamp(l: LegacyLink): int { l.created_at }
  predicate IsPublicLegacy(l: LegacyLink) { l.link_status == Public }

  /** Every row matches an unfiltered `find()`. */
  predicate Everything<T>(x: T) { true }
}
