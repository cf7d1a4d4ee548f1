# Fuyuna server core in Dafny

This project models the server side of Fuyuna, a blog with articles, friend
links and administrators. The core modelled here is:

- **The cache-aside services.**
  - Articles, friend links and admins live in a PostgreSQL table, with a Redis cache beside it.
  - A read looks at the cache first. On a miss it reads the table and caches a non-empty answer with an expiry.
  - A write saves to the table and then deletes particular cache keys.
- **An older friend-link service.** It uses the same keys.
- **The whole-cache clear.**
- **JWT revocation and the gate that reads it.**
  - A committed admin mutation writes the caller's token id to `blacklist:<jti>`.
  - The authentication gate refuses tokens found there.
- **The site counters.**
- **The request checks** of the article resolver and the two upload controllers.

Each service is a class with two pieces of state:

- its table, a field `rows: map<int, Row>`;
- a shared `Redis` object whose `entries` map literal string keys to a value and an expiry.

Each service keeps a `Coherent()` invariant:

- an `id:` key holds exactly the stored row;
- the `all` key holds a complete, duplicate-free listing, newest first where the query orders by creation time;
- page and page-total keys hold values of the right shape.

That invariant is all the cache promises. Redis `DEL` does not expand patterns, so `del('article:page:*')` removes only the key spelled with an asterisk. `CacheKeys.WildcardIsLiteral` proves that this key is none of the concrete `article:page:<p>:<s>` keys. The services' contracts then show that cached pages and page totals survive every write: they are never invalidated.

Listings use `Query.SelectNewestFirst`, a selection loop over the table. It is proved to return exactly the rows that pass a filter, without duplicates, newest first. Pages are windows of that listing. `Query.TotalPages` is `Math.ceil(count / pageSize)`.

Three things are inputs to the operations:

- the outcome of a save;
- the key the table generates, and the clock;
- the results of hashing, token decoding and the object store.

## Model

| member | source | states |
|---|---|---|
| `Decimal.NatToStringInjective` | apps/server/src/article/article.service.ts:74 | distinct non-negative ids print as distinct decimal strings, so `article:id:<id>` keys do not collide |
| `Decimal.IntToStringInjective` | apps/server/src/article/article.service.ts:104 | distinct integers, negative ones included, print differently, as `${page}` and `${pageSize}` do |
| `Decimal.IntToStringSign` | apps/server/src/article/article.service.ts:104 | a printed integer starts with a digit exactly when it is not negative |
| `Decimal.IntToStringChars` | apps/server/src/article/article.service.ts:141 | a printed integer is non-empty and uses only digits and the minus sign |
| `Decimal.NatToStringDigits` | apps/server/src/article/article.service.ts:74 | a printed natural number is digits only, and has one digit exactly when it is below 10 |
| `CacheKeys.IdKeyInjective` | apps/server/src/article/article.service.ts:74 | two `<ns>:id:<id>` keys are equal only for the same id |
| `CacheKeys.NameKeyInjective` | apps/server/src/admin/admin.service.ts:83 | two `user:name:<name>` keys are equal only for the same name |
| `CacheKeys.TemplatesDistinct` | apps/server/src/article/article.service.ts:41-141 | the all, id, name, page and totalPage key families of one namespace never share a key |
| `CacheKeys.WildcardIsLiteral` | apps/server/src/article/article.service.ts:171-172 | the literal `<ns>:page:*` and `<ns>:totalPage:*` keys that the writes delete are no concrete page or page-total key |
| `CacheKeys.WildcardsApart` | apps/server/src/friend-link/friend-link.service.ts:170-173 | the two wildcard keys differ from every key any read path writes |
| `CacheKeys.IdKeyApart` | apps/server/src/article/article.service.ts:88 | writing an id key touches no other key that a read path uses |
| `CacheKeys.AllKeyApart` | apps/server/src/article/article.service.ts:59 | writing the listing key touches no id, page, page-total or name key |
| `CacheKeys.PageKeyApart` | apps/server/src/article/article.service.ts:124 | writing one page key touches no other family |
| `CacheKeys.TotalPageKeyApart` | apps/server/src/article/article.service.ts:153 | writing one page-total key touches no other family |
| `CacheKeys.NameKeyApart` | apps/server/src/admin/admin.service.ts:97 | writing a by-name key touches neither the listing nor any id key |
| `CacheKeys.BlacklistApart` | apps/server/src/admin/admin.resolver.ts:38-43 | a `blacklist:<jti>` key is never a `user:` listing, id or name key |
| `KeyValue.Fill` | apps/server/src/article/article.service.ts:73-94 | a read-through adds its key and changes no entry already present |
| `KeyValue.Redis.Get` | apps/server/src/article/article.service.ts:74-79 | GET finds a value exactly when that literal key is present, and answers the stored value |
| `KeyValue.Redis.Del` | apps/server/src/article/article.service.ts:170-173 | DEL removes exactly the one literal key it is given, answering 1 if it was present and 0 otherwise |
| `KeyValue.Redis.Set` | apps/server/src/admin/admin.resolver.ts:38-43 | SET with EX succeeds exactly for a positive expiry and then writes only its key |
| `KeyValue.Redis.AllKeys` | apps/server/src/cache/cache.service.ts:28 | `KEYS *` lists every present key once |
| `KeyValue.Redis.DelAll` | apps/server/src/cache/cache.service.ts:33 | a multi-key DEL removes exactly the listed keys and counts those present |
| `Query.NewestExists` | apps/server/src/article/article.service.ts:52-58 | every non-empty set of rows has a newest row, the one `ORDER BY created_at DESC` puts first |
| `Query.SelectNewestFirst` | apps/server/src/article/article.service.ts:52-58 | the listing is exactly the filtered rows, without duplicates, ordered newest first |
| `Query.SelectionBounded` | apps/server/src/article/article.service.ts:58-64 | a listing is no longer than the table, and empty exactly when no row passes the filter |
| `Query.Window` | apps/server/src/article/article.service.ts:117-122 | `skip`/`take` give the listing's elements from `skip`, at most `take` of them; a negative one is refused by the database; 0 for `take` means no limit |
| `Query.CeilDiv` | apps/server/src/article/article.service.ts:154-157 | the integer ceiling of a quotient, for either sign of the divisor |
| `Query.TotalPages` | apps/server/src/article/article.service.ts:154-157 | `Math.ceil(count / pageSize)`: no number for size 0; for positive sizes the least page count that covers `count` |
| `Query.PagesArePrefix` | apps/server/src/article/article.service.ts:117-122 | pages 1 to n together are the first n·size rows of the listing |
| `Query.PagesCoverListing` | apps/server/src/article/article.service.ts:117-157 | the pages up to the page total together are the whole listing |
| `Query.PagesPastTotalAreEmpty` | apps/server/src/article/article.service.ts:117-157 | a page past the page total is empty |
| `Query.NonEmptyPageWithinTotal` | apps/server/src/article/article.service.ts:117-157 | a non-empty page lies within the page total of any count at least the listing's length |
| `ArticleCache.ApplyPatch` | apps/server/src/article/article.service.ts:196-208 | the field loop overwrites the five listed fields the input gives (not undefined, not null) and nothing else |
| `ArticleCache.CopyingAllFieldsPatches` | apps/server/src/article/article.service.ts:204-208 | copying the listed fields one by one gives the whole patch |
| `ArticleCache.PatchKeepsIdentity` | apps/server/src/article/article.service.ts:196-208 | a patch keeps the id, creation time and view count, and an empty patch changes nothing |
| `ArticleCache.PatchIdempotent` | apps/server/src/article/article.service.ts:204-208 | applying the same patch twice is applying it once |
| `ArticleCache.InvalidationSparesPages` | apps/server/src/article/article.service.ts:170-173 | the four deletes of a write leave every cached page and page total, and every other id's entry |
| `ArticleCache.CreateOutdatesFirstPage` | apps/server/src/article/article.service.ts:166-173 | creating a newer public article changes page 1 of the listing, so the cached page 1 the create leaves in place is stale |
| `ArticleCache.TotalCoversPublicPages` | apps/server/src/article/article.service.ts:152 | the page total counts every row, so it covers every non-empty page of the public listing |
| `ArticleCache.ArticleService.FindAll` | apps/server/src/article/article.service.ts:40-65 | a hit returns the cached list untouched; a miss returns the public articles newest first and caches them with expiry 18000 only when non-empty, else null with nothing written |
| `ArticleCache.ArticleService.FindById` | apps/server/src/article/article.service.ts:73-94 | the stored article or null; a found article is cached under its id key |
| `ArticleCache.ArticleService.FindByPage` | apps/server/src/article/article.service.ts:103-132 | a cached page as stored, or the window of the public listing, cached only when non-empty |
| `ArticleCache.ArticleService.GetTotalPages` | apps/server/src/article/article.service.ts:140-158 | the page total of the cached count or of all rows; the raw count is what gets cached |
| `ArticleCache.ArticleService.Create` | apps/server/src/article/article.service.ts:166-183 | after a truthy save the new row is stored and exactly the four keys go; otherwise nothing changes |
| `ArticleCache.ArticleService.Update` | apps/server/src/article/article.service.ts:191-224 | an unknown id changes nothing; a saved update stores the patched row, deletes the four keys and leaves the id key holding the re-read row |
| `ArticleCache.ArticleService.UpdateStatus` | apps/server/src/article/article.service.ts:233-257 | the status is saved onto the stored row, the four keys go and the id key holds the re-read row |
| `ArticleCache.ArticleService.Delete` | apps/server/src/article/article.service.ts:265-279 | true exactly when a row went, and only then are the four keys deleted |
| `FriendLinkCache.ApplyPatch` | apps/server/src/friend-link/friend-link.service.ts:198-211 | the field loop overwrites the seven listed fields the input gives and nothing else |
| `FriendLinkCache.CopyingAllFieldsPatches` | apps/server/src/friend-link/friend-link.service.ts:207-211 | copying the listed fields one by one gives the whole patch |
| `FriendLinkCache.PatchKeepsIdentity` | apps/server/src/friend-link/friend-link.service.ts:198-211 | a patch keeps the id and creation time, and an empty patch changes nothing |
| `FriendLinkCache.PatchIdempotent` | apps/server/src/friend-link/friend-link.service.ts:207-211 | applying the same patch twice is applying it once |
| `FriendLinkCache.InvalidationSparesPages` | apps/server/src/friend-link/friend-link.service.ts:214-220 | the update's three deletes leave cached pages, every page total and other ids' entries |
| `FriendLinkCache.FriendLinkService.FindAll` | apps/server/src/friend-link/friend-link.service.ts:43-68 | the public links newest first, cached with expiry 3600 only when non-empty; null with nothing written otherwise |
| `FriendLinkCache.FriendLinkService.FindById` | apps/server/src/friend-link/friend-link.service.ts:75-95 | the stored link cached with expiry 3600, or null with no write |
| `FriendLinkCache.FriendLinkService.FindByPage` | apps/server/src/friend-link/friend-link.service.ts:103-130 | a cached page, or the window of the public listing, which is never cached and never null |
| `FriendLinkCache.FriendLinkService.GetTotalPages` | apps/server/src/friend-link/friend-link.service.ts:138-158 | the page total of all rows, the count cached with expiry 18000 |
| `FriendLinkCache.FriendLinkService.CreateFriendLink` | apps/server/src/friend-link/friend-link.service.ts:165-180 | after a truthy save the link is stored and the four keys go |
| `FriendLinkCache.FriendLinkService.UpdateFriendLink` | apps/server/src/friend-link/friend-link.service.ts:188-225 | an unknown id changes nothing; a saved update stores the patched link and deletes the listing, id and literal page keys but no page total |
| `FriendLinkCache.FriendLinkService.UpdateStatus` | apps/server/src/friend-link/friend-link.service.ts:233-259 | the saved object names the status `link_status`, which the entity lacks, so no row changes; the four keys still go and the unchanged link is re-read |
| `FriendLinkCache.FriendLinkService.DeleteFriendLink` | apps/server/src/friend-link/friend-link.service.ts:267-279 | true exactly when a row went, and only then are the four keys deleted |
| `AdminCache.ApplyUpdate` | apps/server/src/admin/admin.service.ts:139-147 | a new hash only for a truthy password, a new name only for a truthy name, a new flag only when a boolean is given |
| `AdminCache.UpdateFieldRules` | apps/server/src/admin/admin.service.ts:139-147 | an empty name or password changes nothing, the id never changes, and an input with no fields leaves the admin as it was |
| `AdminCache.RenameKeepsOldNameEntry` | apps/server/src/admin/admin.service.ts:150-152 | after a rename the entry under the previous name survives |
| `AdminCache.RemoveKeepsNameEntry` | apps/server/src/admin/admin.service.ts:196-198 | `remove` deletes `user:name:<id>`, so the entry under the admin's real name survives |
| `AdminCache.AdminService.FindAll` | apps/server/src/admin/admin.service.ts:26-48 | every admin, unfiltered, cached with expiry 18000 only when non-empty |
| `AdminCache.AdminService.FindById` | apps/server/src/admin/admin.service.ts:55-75 | the stored admin cached under `user:id:<id>`, or null with no write |
| `AdminCache.AdminService.FindByName` | apps/server/src/admin/admin.service.ts:82-102 | an admin with that name, cached under `user:name:<name>`, or null with no write |
| `AdminCache.AdminService.Create` | apps/server/src/admin/admin.service.ts:109-126 | after a truthy save the active admin is stored and the listing, name and id keys go |
| `AdminCache.AdminService.Update` | apps/server/src/admin/admin.service.ts:133-161 | the row is read from the table, not the cache; an unknown id changes nothing; a saved update deletes the listing, the new name's key and the id key |
| `AdminCache.AdminService.UpdateActive` | apps/server/src/admin/admin.service.ts:169-186 | an unknown id changes nothing; otherwise the flag is set without looking at the result, and only the listing and id keys go |
| `AdminCache.AdminService.Remove` | apps/server/src/admin/admin.service.ts:193-206 | true exactly when the row went, and then the listing, id and `user:name:<id>` keys go |
| `LegacyFriendLinkCache.SaveDropsUnknownProperties` | packages/server/src/friend-link/input/friendLink.input.ts:12-43 | the intended merge into row `linkId` changes neither the id, the title, the logo nor the description: `link_name`, `link_logo` and `link_desc` name no column |
| `LegacyFriendLinkCache.DeleteSparesOthers` | packages/server/src/friend-link/friend-link.service.ts:214-218 | a delete leaves every cached page, page total and other id's entry |
| `LegacyFriendLinkCache.LegacyFriendLinkService.FindAll` | packages/server/src/friend-link/friend-link.service.ts:40-58 | every link, unfiltered, cached with expiry 3600 only when non-empty |
| `LegacyFriendLinkCache.LegacyFriendLinkService.FindById` | packages/server/src/friend-link/friend-link.service.ts:65-83 | the stored link cached with expiry 3600, or null with no write |
| `LegacyFriendLinkCache.LegacyFriendLinkService.FindByPage` | packages/server/src/friend-link/friend-link.service.ts:91-117 | a cached page, or the window of the public listing, never cached |
| `LegacyFriendLinkCache.LegacyFriendLinkService.GetTotalPages` | packages/server/src/friend-link/friend-link.service.ts:125-145 | the page total of all rows, the count cached with expiry 18000 |
| `LegacyFriendLinkCache.LegacyFriendLinkService.UpdateFriendLink` | packages/server/src/friend-link/friend-link.service.ts:153-173 | as written: an unknown id answers null with no change; for a stored link the existence check fills its id key, then the save, an insert without the NOT NULL `link_title`, is refused, so the call rejects with the table and every other key unchanged |
| `LegacyFriendLinkCache.LegacyFriendLinkService.UpdateFriendLinkAsIntended` | packages/server/src/friend-link/friend-link.service.ts:153-173 | as intended: an unknown id changes nothing; a saved update merges `link_url` and `link_status` into row `linkId`, deletes the listing, id and literal page keys and re-reads the link; the cache stays coherent |
| `LegacyFriendLinkCache.LegacyFriendLinkService.UpdateStatus` | packages/server/src/friend-link/friend-link.service.ts:181-205 | a successful save answers null and deletes nothing, so a changed status leaves the cache disagreeing with the table; only a falsy save deletes and re-reads |
| `LegacyFriendLinkCache.LegacyFriendLinkService.UpdateStatusAsIntended` | packages/server/src/friend-link/friend-link.service.ts:191-204 | with the success test the right way round, the id and listing keys go after a save and the cache agrees with the table again |
| `LegacyFriendLinkCache.LegacyFriendLinkService.DeleteFriendLink` | packages/server/src/friend-link/friend-link.service.ts:213-223 | true exactly when a row went; then only the id and listing keys go |
| `CacheAdmin.CacheService.ClearAllCache` | apps/server/src/cache/cache.service.ts:27-36 | answers how many keys were present, 0 with nothing deleted for an empty cache, and leaves the cache empty |
| `JwtGuard.JwtAuthGuard.CanActivate` | packages/server/src/auth/guards/jwt.guard.ts:35-59 | the gate's decision, made with one cache read and no write |
| `JwtGuard.PublicAdmits` | packages/server/src/auth/guards/jwt.guard.ts:41-43 | a public route is admitted whatever the token and the cache |
| `JwtGuard.AdmittedExactly` | packages/server/src/auth/guards/jwt.guard.ts:45-58 | a protected route admits exactly the verified tokens whose `jti` is missing, empty or has no truthy blacklist entry |
| `JwtGuard.DecisionReadsOnlyItsEntry` | packages/server/src/auth/guards/jwt.guard.ts:52-53 | the decision depends on no cache entry other than `blacklist:<jti>` |
| `JwtGuard.RevocationRejects` | packages/server/src/auth/guards/jwt.guard.ts:52-56 | once `blacklist:<jti>` holds `revoked`, a verified token with that `jti` is refused with Unauthorized exactly when the `jti` is non-empty |
| `JwtGuard.BlacklistKeyInjective` | packages/server/src/auth/guards/jwt.guard.ts:53 | two blacklist keys are equal only for the same `jti` |
| `JwtGuard.RevocationIsPerToken` | packages/server/src/auth/guards/jwt.guard.ts:53 | revoking one `jti` changes the decision for no other `jti` |
| `AdminApi.Split` | apps/server/src/admin/admin.resolver.ts:129 | `split(' ')` gives at least one piece, no piece holds a space, and joining the pieces with spaces gives the header back |
| `AdminApi.SplitJoin` | apps/server/src/admin/admin.resolver.ts:129 | splitting undoes joining pieces that hold no separator |
| `AdminApi.BearerToken` | apps/server/src/admin/admin.resolver.ts:127-129 | a missing header throws; otherwise the token is the second piece, if any, and holds no space |
| `AdminApi.BearerHeaderYieldsToken` | apps/server/src/admin/admin.resolver.ts:127-129 | a header `Bearer <token>` yields the token |
| `AdminApi.RevocationLastsUntilExpiry` | apps/server/src/admin/admin.resolver.ts:34-44 | a write happens only for claims with a `jti` and an `exp` still in the future, and its expiry ends at the token's `exp` second |
| `AdminApi.SuccessRevokesCaller` | apps/server/src/admin/admin.resolver.ts:125-143 | after a mutation answered 200, the gate refuses the caller's token, unless its `jti` is empty |
| `AdminApi.AdminResolver.SetTokenToBlacklist` | apps/server/src/admin/admin.resolver.ts:28-49 | false with no write without a claims object that has a `jti`; otherwise `blacklist:<jti>` holds `revoked` with expiry `exp - floor(now/1000)`; a refused write is caught and answered false |
| `AdminApi.AdminResolver.GetAdminById` | apps/server/src/admin/admin.resolver.ts:74-84 | always a reply object: 200 with the admin, or 204 |
| `AdminApi.AdminResolver.CreateAdmin` | apps/server/src/admin/admin.resolver.ts:92-110 | a name outside `^[a-zA-Z0-9_]{5,20}$` answers 400 before the service runs; otherwise 200 or 204 |
| `AdminApi.AdminResolver.UpdateAdmin` | apps/server/src/admin/admin.resolver.ts:118-150 | the pre-check never stops the update; a committed update revokes the caller's token and answers 200, or 500 when revocation fails though the row has changed; a failed one answers 204 with no blacklist write |
| `AdminApi.AdminResolver.UpdateAdminStatus` | apps/server/src/admin/admin.resolver.ts:159-189 | a committed flag change revokes the caller's token and answers 200, or 500; an unknown id answers 204 with no write |
| `AdminApi.AdminResolver.DeleteAdmin` | apps/server/src/admin/admin.resolver.ts:197-226 | a committed removal revokes the caller's token and answers 200, or 500; otherwise 204 with no write |
| `ArticleApi.ListReply` | apps/server/src/article/article.resolver.ts:25-32 | 200 with the list exactly when it is non-empty, otherwise 404 with no data |
| `ArticleApi.PatchKeepsStatusValid` | apps/server/src/article/article.resolver.ts:141-151 | a patch that passes the status check keeps every stored status within the enum; status 0 passes because it is falsy |
| `ArticleApi.ArticleResolver.GetAllArticle` | apps/server/src/article/article.resolver.ts:23-33 | 200 exactly when some article is public, with the public listing; 404 otherwise |
| `ArticleApi.ArticleResolver.GetArticleByPage` | apps/server/src/article/article.resolver.ts:42-59 | the page's reply, 404 for a null or empty page; page and size are not checked |
| `ArticleApi.ArticleResolver.GetArticleTotalPages` | apps/server/src/article/article.resolver.ts:67-83 | 400 for a page size that is not positive, without asking the service; otherwise 200 with the page total |
| `ArticleApi.ArticleResolver.GetArticleById` | apps/server/src/article/article.resolver.ts:91-105 | 200 with the article, or 404 |
| `ArticleApi.ArticleResolver.CreateArticle` | apps/server/src/article/article.resolver.ts:114-124 | 200 with the created article, or 500 |
| `ArticleApi.ArticleResolver.UpdateArticle` | apps/server/src/article/article.resolver.ts:133-167 | 400 for a falsy id or a truthy status outside the enum, before the service runs; then 200 or 500; stored statuses stay within the enum |
| `ArticleApi.ArticleResolver.UpdateArticleStatus` | apps/server/src/article/article.resolver.ts:177-209 | 400 for any status outside the enum; then 200 or 500; stored statuses stay within the enum |
| `ArticleApi.ArticleResolver.DeleteArticle` | apps/server/src/article/article.resolver.ts:218-249 | an unknown id answers 404 with no external call; otherwise the blob is deleted before the row, the blob delete's answer is never read, and the answer is 200 |
| `SiteCounters.Write` | packages/server/src/data/data.service.ts:85 | setting one counter leaves the other and the id as they were |
| `SiteCounters.DataService.GetData` | packages/server/src/data/data.service.ts:34-43 | row 1, or null |
| `SiteCounters.DataService.GetCount` | packages/server/src/data/data.service.ts:49-73 | the stored visit or like count, or null; nothing changes |
| `SiteCounters.DataService.AddOne` | packages/server/src/data/data.service.ts:79-107 | the count goes up by exactly one and the other stays, answering the new count; null with no write without row 1 |
| `SiteCounters.DataService.Reset` | packages/server/src/data/data.service.ts:113-151 | the count becomes 0 and the other stays, answering the value read back; null with no write without row 1 |
| `Uploads.IsValidUploadFile` | packages/server/src/article/article.controller.ts:25-34 | an object with a Buffer `buffer` and a string `originalname`; the markdown test never throws on such a value |
| `Uploads.IsMarkdown` | packages/server/src/article/article.controller.ts:64-67 | a falsy value is not markdown; true exactly for an object whose mimetype is `text/markdown` or whose lower-cased string name ends in `.md` |
| `Uploads.Lower` | packages/server/src/article/article.controller.ts:67 | `toLowerCase` keeps the length and lowers each letter |
| `Uploads.ValidUploadsDoNotThrow` | packages/server/src/article/article.controller.ts:64-68 | the markdown test never throws on a value that passes `isValidUploadFile` |
| `Uploads.MarkdownThrowsExactly` | packages/server/src/article/article.controller.ts:64-67 | the markdown test throws exactly for a truthy value with no string name whose mimetype does not settle the question |
| `Uploads.MarkdownExtensionAnyCase` | packages/server/src/article/article.controller.ts:67 | a name ending in `.md` in any mix of cases is markdown |
| `ArticleUpload.ArticleController.CreateArticle` | packages/server/src/article/article.controller.ts:60-106 | the markdown test first and it may throw; then 400 for an invalid file, 415 for a non-markdown one, 400 without a title, 500 when the upload answers nothing, else the titled upload is created and 201 |
| `FriendLinkUpload.DraftsAreHidden` | apps/server/src/friend-link/friend-link.controller.ts:77-117 | both create inputs carry status 0, so a new link joins no public listing |
| `FriendLinkUpload.FriendLinkController.CreateFriendLink` | apps/server/src/friend-link/friend-link.controller.ts:65-124 | 400 without a title or URL, with no upload; with no file, title, URL and status 0 only; 400 for an invalid file; 500 when the upload fails, with no create; otherwise the logo fields, status 0 and a truthy description; every create answers 201 |

`isValidUploadFile` is the same function in both controllers: `apps/server/src/friend-link/friend-link.controller.ts:26-35` and `packages/server/src/article/article.controller.ts:25-34`. `Uploads.IsValidUploadFile` models both.

## Left out

- Expiry times are recorded with each entry, but entries never expire in the model. There is no clock for the cache.
- Concurrency between cache and table writes is not modelled; each operation runs to completion alone. This is why `deleteArticle` always answers 200 once the article is found.
- Logging is not modelled.
- JSON serialisation and the `Date` rehydration after `JSON.parse` are treated as the identity.
- The `updatedAt` columns, which the database maintains, are not modelled.
- Password hashing (bcrypt) is not modelled. Its output is an input, and `checkAdminPassWord` is not modelled.
- JWT signing, verification and decoding are not modelled.
  - The gate takes the verdict of the signature and expiry check and the token's `jti` as inputs.
  - The resolver takes the decoder as a function.
  - A missing token decodes to null.
- The object store (Tencent COS) is not modelled.
  - Uploads answer a bucket location or nothing.
  - Blob deletes are recorded in order, and their answers are ignored.
  - The object store's upload functions are not part of this model.
- The article service behind `packages/server/src/article/article.controller.ts` is the uncached one, which is not part of this model. Its create calls are recorded instead.
- A save's outcome (`saved`) and the key the table generates are inputs. A save that fails by throwing is not modelled, except in the counter service, where an `integer` overflow throws.
- The article and friend-link create inputs are assumed to have the shapes of `ArticleCache.ArticleDraft` and `FriendLinkCache.FriendLinkDraft`. `apps/server/src/article/input/article.input.ts` is not part of this model.
- Redis being unreachable is not modelled. A failing GET, SET or DEL on the services' paths is out of scope. Only the blacklist write's refusal of an expiry that is not positive (or NaN) is modelled.
- Rows with equal creation times are listed in an order the model leaves open, as SQL does.
- `toLowerCase` is modelled on ASCII letters only.
- `LegacyFriendLinkCache.LegacyFriendLinkService.UpdateFriendLinkAsIntended` treats an explicit null for `link_url` or `link_status` like an absent property; the NOT NULL columns would refuse it.
- `LegacyFriendLinkCache.LegacyFriendLinkService.UpdateFriendLink` models the refused insert as a rejection. The database error itself is not modelled.
- `JwtGuard.JwtAuthGuard.CanActivate` takes a failed verification as the answer false, as the code is written. A rejection that the passport strategy throws itself is not modelled.
- `AdminApi.AdminResolver.CreateAdmin` does not model the hashing, the id generation or the clock; they are inputs.
- `getAllAdmin` (`apps/server/src/admin/admin.resolver.ts:56-66`) is not modelled. It only maps the service listing to 200 or 204.
- The services share one Redis. Key disjointness across namespaces is proved only between the blacklist and the `user:` keys, which share the admin resolver's path.

## Findings

| source | as written | input that shows it | evidently intended | confidence | as-written member | corrected member |
|---|---|---|---|---|---|---|
| packages/server/src/friend-link/friend-link.service.ts:192 | `if (!result)`: the cache deletes and the re-read run only when the save answers falsy; a successful save answers null and deletes nothing | a stored link with status 0, `updateStatus(id, 1)` with a save that answers the saved link: the answer is null, the table holds status 1, and `friendLink:id:<id>`, filled by the existence check, still holds status 0 | `if (result)`, as the success and failure log messages in the two branches say | high; not executed | `LegacyFriendLinkCache.LegacyFriendLinkService.UpdateStatus` | `LegacyFriendLinkCache.LegacyFriendLinkService.UpdateStatusAsIntended` |
| packages/server/src/friend-link/friend-link.service.ts:161 | `save({ ...updateData })` gets an object with `linkId` but no primary key `link_id`, so TypeORM inserts a new row; the insert has no `link_title`, a NOT NULL column with no default, and is refused | stored link 5, `updateFriendLink(5, { linkId: 5, link_url: 'u' })`: the call rejects, row 5 keeps its URL, and only `friendLink:id:5`, filled by the existence check, has changed in the cache | `save({ link_id: linkId, ... })` with the entity's property names, merging into row `linkId` | high; not executed | `LegacyFriendLinkCache.LegacyFriendLinkService.UpdateFriendLink` | `LegacyFriendLinkCache.LegacyFriendLinkService.UpdateFriendLinkAsIntended` |
