# Article revalidation hooks, modelled in Dafny

This project models the cache-invalidation hooks of the Article collection
in a Payload CMS + Next.js site (`src/collections/Articles/hooks/revalidateArticle.ts`).

- `revalidateArticle` runs after an article is created or updated. When
  revalidation is not disabled for the request, it does two things. If the
  saved article is published, it invalidates the article's page and the tag
  `srticles-sitemap`. If the article was published before and is not
  published now, it invalidates the page at the previous slug and the tag
  `articles-sitemap`.
- `revalidateDelete` runs after a delete. When revalidation is not disabled,
  it invalidates the deleted article's page and the tag `pages-sitemap`,
  whatever the article's status was.
- The page path of a slug is `/` for `home` and `/<slug>` otherwise. The
  slug goes through a template literal, so a `null` or `undefined` slug
  becomes the text `null` or `undefined`.

Both hooks return the document they were given, unchanged. Their calls to
`revalidatePath` and `revalidateTag` are fire-and-forget. Each hook is
therefore a function that returns the document together with the `Action`s
it issues, in issue order.

Files:
- `wrappers.dfy`: `Option`, for a document that may be missing.
- `revalidate_article.dfy`: module `RevalidateArticle`, which holds the
  documents, slugs, statuses, path resolution, both hooks and the lemmas
  about a single call.
- `invalidation_log.dfy`: module `InvalidationLog`. It is a view of a run
  of successive hook calls and of the log of invalidations the cache
  receives; the program itself contains no such run, since Payload calls the
  hooks once per event. It proves that the log is made of path-then-tag
  pairs, with two actions for every call that fires. That each call has no
  memory of earlier calls holds by construction: every hook is a function
  of its own arguments.

The two checks in the after-change hook read as independent `if`s, but they
cannot both hold. One requires the new document to be published and the
other requires it not to be, so at most one fires (`AfterChangeFires`).
Within a call, the model keeps the source's order: path first, then tag.

## Model

| member | source | states |
|---|---|---|
| `RevalidateArticle.ResolvePath` | src/collections/Articles/hooks/revalidateArticle.ts:14 | every path starts with `/`; the path is exactly `/` iff the slug is `home` or the empty string |
| `RevalidateArticle.RenderedCollision` | src/collections/Articles/hooks/revalidateArticle.ts:37 | two slugs render to the same text in a template literal iff they are equal, or one is `null`/`undefined` and the other is the slug spelling that word |
| `RevalidateArticle.ResolvePathCollision` | src/collections/Articles/hooks/revalidateArticle.ts:24 | two slugs give the same path iff they are equal, or both are `home`/empty, or one is `null`/`undefined` and the other is the slug spelling that word |
| `RevalidateArticle.AfterChange` | src/collections/Articles/hooks/revalidateArticle.ts:7-33 | returns the given doc unchanged; emits 0 or 2 actions; emits nothing when `disableRevalidate` is set, or when neither the new nor the previous doc is published |
| `RevalidateArticle.AfterChangePublished` | src/collections/Articles/hooks/revalidateArticle.ts:13-19 | a published doc with revalidation on emits exactly its own page path, then `srticles-sitemap` |
| `RevalidateArticle.AfterChangeUnpublished` | src/collections/Articles/hooks/revalidateArticle.ts:22-29 | with revalidation on, a published-to-unpublished transition emits exactly the previous doc's page path, then `articles-sitemap` |
| `RevalidateArticle.AfterChangeFires` | src/collections/Articles/hooks/revalidateArticle.ts:12-30 | actions are emitted iff revalidation is on and the doc is published or was just unpublished; the two branches never both hold |
| `RevalidateArticle.AfterChangeInvalidatesPath` | src/collections/Articles/hooks/revalidateArticle.ts:13-29 | a path is invalidated iff revalidation is on and it is the published doc's page or the old page of a just-unpublished doc (both directions) |
| `RevalidateArticle.RenameWhilePublishedKeepsOldPage` | src/collections/Articles/hooks/revalidateArticle.ts:22-23 | when a published article is saved again still published, its old page is invalidated iff revalidation is on and the old and new slugs resolve to the same path |
| `RevalidateArticle.PublishCycleTags` | src/collections/Articles/hooks/revalidateArticle.ts:19-29 | with revalidation on, publishing and then unpublishing an article invalidates two different tags, `srticles-sitemap` and then `articles-sitemap` |
| `RevalidateArticle.AfterDelete` | src/collections/Articles/hooks/revalidateArticle.ts:35-43 | returns the given (possibly missing) doc unchanged; emits nothing iff `disableRevalidate` is set; otherwise emits exactly the page path of `doc?.slug`, then `pages-sitemap` |
| `RevalidateArticle.AfterDeleteIgnoresStatus` | src/collections/Articles/hooks/revalidateArticle.ts:36-39 | two deleted docs with the same slug emit the same actions, whatever their statuses |
| `RevalidateArticle.AfterDeleteMissingDoc` | src/collections/Articles/hooks/revalidateArticle.ts:37-39 | with revalidation on, a delete without a document invalidates `/undefined`, then `pages-sitemap` |
| `InvalidationLog.Emitted` | src/collections/Articles/hooks/revalidateArticle.ts:18-39 | one hook call emits nothing or a page path followed by one of the three tag literals; nothing when revalidation is disabled |
| `InvalidationLog.EmittedFires` | src/collections/Articles/hooks/revalidateArticle.ts:12-36 | a hook call emits actions iff `Fires`, a reference reading of both hooks' guards, holds |
| `InvalidationLog.Log` | src/collections/Articles/hooks/revalidateArticle.ts:7-43 | the log of a run of hook calls is always path-then-tag pairs, each tag one of the three literals |
| `InvalidationLog.LogLength` | src/collections/Articles/hooks/revalidateArticle.ts:12-40 | a run's log has exactly two actions for every call that fires |
| `InvalidationLog.LogSuppressed` | src/collections/Articles/hooks/revalidateArticle.ts:12 | a run in which every request disables revalidation emits nothing |

## Left out

- The `payload.logger.info` calls (lines 16 and 26) are logging with no effect on the decision.
- What `revalidatePath` and `revalidateTag` from `next/cache` do inside the cache is left out. They are modelled only as emitted `Action` values, and the model assumes they never fail.
- Payload's hook plumbing (`CollectionAfterChangeHook`, `req`, the `payload` instance) is left out. It becomes the explicit parameters `doc`, `previousDoc` and `ctx`.
- `context.disableRevalidate` is tested by truthiness in the source. The model takes it as a `bool`, so non-boolean truthy values are not modelled.
- Only the `slug` and `_status` fields of an Article are modelled. The generated `Article` type (`payload-types`) is not part of this model.
- `src/components/Media/types.ts` holds only TypeScript interface declarations for a media component. It has no behaviour to model.
- Concurrency between hook calls is not modelled. Each call reads only its own arguments.
