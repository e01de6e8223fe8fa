/**
 * The two Payload collection hooks of the Article collection that tell the
 * Next.js cache which rendered pages and which tagged sitemaps went stale:
 * `revalidateArticle` after a create or an update, `revalidateDelete` after
 * a delete. The calls to `revalidatePath` and `revalidateTag` are
 * fire-and-forget, so each hook is modelled as a function that returns the
 * document it was given together with the sequence of invalidations it
 * issues, in the order it issues them.
 */
module RevalidateArticle {
  import opened Wrappers

  /** The `_status` field of a versioned document. Only `'published'` is
      distinguished; `Other` covers null, undefined or any other value. */
  datatype Status = Published | Draft | Other

  /** The JavaScript value of a document's `slug` field. The three cases are
      kept apart because a template literal renders them differently. */
  datatype Slug = Text(text: string) | Null | Undefined

  /** The part of an Article the hooks read. */
  datatype Doc = Doc(slug: Slug, status: Status)

  /** The part of the request context the hooks read. */
  datatype Ctx = Ctx(disableRevalidate: bool)

  /** One call into `next/cache`. */
  datatype Action = RevalidatePath(path: string) | RevalidateTag(tag: string)

  /** What a hook hands back to Payload (the document) and what it asked the
      cache to invalidate on the way. */
  datatype HookResult<T> = HookResult(doc: T, actions: seq<Action>)

  /** Tag invalidated when a published article is saved (spelt as in the source). */
  const PublishTag: string := "srticles-sitemap"
  /** Tag invalidated when an article leaves the published state. */
  const UnpublishTag: string := "articles-sitemap"
  /** Tag invalidated when an article is deleted. */
  const DeleteTag: string := "pages-sitemap"

  /** How `${slug}` renders a slug inside a template literal. */
  function Rendered(slug: Slug): string {
    match slug
    case Text(t) => t
    case Null => "null"
    case Undefined => "undefined"
  }

  /** The page path of a slug: `'home'` is the site root, every other slug
      `s` is `/s`, with a missing slug rendered as text. */
  function ResolvePath(slug: Slug): (p: string)
    ensures |p| >= 1 && p[0] == '/'
    ensures p == "/" <==> slug == Text("home") || slug == Text("")
  {
    if slug == Text("home") then "/" else "/" + Rendered(slug)
  }

  /** True when the document's `_status` is `'published'`. */
  predicate IsPublished(doc: Doc) {
    doc.status == Published
  }

  /** `previousDoc?._status === 'published'`. */
  predicate WasPublished(previousDoc: Option<Doc>) {
    previousDoc.Some? && IsPublished(previousDoc.value)
  }

  /** The publish-to-unpublish transition that makes the old page stale. */
  predicate Unpublished(doc: Doc, previousDoc: Option<Doc>) {
    WasPublished(previousDoc) && !IsPublished(doc)
  }

  /** The after-change hook `revalidateArticle`. */
  function AfterChange(doc: Doc, previousDoc: Option<Doc>, ctx: Ctx): (r: HookResult<Doc>)
    ensures r.doc == doc
    ensures |r.actions| == 0 || |r.actions| == 2
    ensures ctx.disableRevalidate ==> r.actions == []
    ensures !IsPublished(doc) && !WasPublished(previousDoc) ==> r.actions == []
  {
    if ctx.disableRevalidate then HookResult(doc, [])
    else
      var published :=
        if IsPublished(doc)
        then [RevalidatePath(ResolvePath(doc.slug)), RevalidateTag(PublishTag)]
        else [];
      var unpublished :=
        if WasPublished(previousDoc) && !IsPublished(doc)
        then [RevalidatePath(ResolvePath(previousDoc.value.slug)), RevalidateTag(UnpublishTag)]
        else [];
      HookResult(doc, published + unpublished)
  }

  /** `doc?.slug` for a deleted document that may be missing. */
  function DeletedSlug(doc: Option<Doc>): Slug {
    match doc
    case None => Undefined
    case Some(d) => d.slug
  }

  /** The after-delete hook `revalidateDelete`. */
  function AfterDelete(doc: Option<Doc>, ctx: Ctx): (r: HookResult<Option<Doc>>)
    ensures r.doc == doc
    ensures r.actions == [] <==> ctx.disableRevalidate
    ensures !ctx.disableRevalidate ==>
      r.actions == [RevalidatePath(ResolvePath(DeletedSlug(doc))), RevalidateTag(DeleteTag)]
  {
    if ctx.disableRevalidate then HookResult(doc, [])
    else HookResult(doc, [RevalidatePath(ResolvePath(DeletedSlug(doc))), RevalidateTag(DeleteTag)])
  }

  // ---------------------------------------------------------------------
  // Path resolution

  /** Rendering is injective except that a `null` or `undefined` slug reads
      the same as the slug spelling that word. */
  lemma RenderedCollision(a: Slug, b: Slug)
    ensures Rendered(a) == Rendered(b) <==>
      || a == b
      || (a in {Null, Text("null")} && b in {Null, Text("null")})
      || (a in {Undefined, Text("undefined")} && b in {Undefined, Text("undefined")})
  {
  }

  /** Two slugs resolve to the same page path exactly when they are equal,
      when both name the root (`'home'` and the empty slug), or when a
      missing slug meets the slug spelling its rendering. */
  lemma ResolvePathCollision(a: Slug, b: Slug)
    ensures ResolvePath(a) == ResolvePath(b) <==>
      || a == b
      || (a in {Text("home"), Text("")} && b in {Text("home"), Text("")})
      || (a in {Null, Text("null")} && b in {Null, Text("null")})
      || (a in {Undefined, Text("undefined")} && b in {Undefined, Text("undefined")})
  {
    var pa, pb := ResolvePath(a), ResolvePath(b);
    if pa == pb && a != Text("home") && b != Text("home") {
      assert Rendered(a) == pa[1..];
      assert Rendered(b) == pb[1..];
      RenderedCollision(a, b);
    }
  }

  // ---------------------------------------------------------------------
  // The after-change hook

  /** Saving a published article invalidates its page, then the article
      sitemap tag, and nothing else. */
  lemma AfterChangePublished(doc: Doc, previousDoc: Option<Doc>, ctx: Ctx)
    requires !ctx.disableRevalidate && IsPublished(doc)
    ensures AfterChange(doc, previousDoc, ctx).actions
      == [RevalidatePath(ResolvePath(doc.slug)), RevalidateTag(PublishTag)]
  {
  }

  /** Taking an article out of the published state invalidates the page at
      its previous slug, then the other sitemap tag, and nothing else. */
  lemma AfterChangeUnpublished(doc: Doc, previousDoc: Option<Doc>, ctx: Ctx)
    requires !ctx.disableRevalidate && Unpublished(doc, previousDoc)
    ensures AfterChange(doc, previousDoc, ctx).actions
      == [RevalidatePath(ResolvePath(previousDoc.value.slug)), RevalidateTag(UnpublishTag)]
  {
  }

  /** The after-change hook invalidates something exactly when revalidation
      is enabled and the article is published or has just been unpublished;
      the two branches never fire together. */
  lemma AfterChangeFires(doc: Doc, previousDoc: Option<Doc>, ctx: Ctx)
    ensures var r := AfterChange(doc, previousDoc, ctx);
      && (r.actions != [] <==> !ctx.disableRevalidate && (IsPublished(doc) || Unpublished(doc, previousDoc)))
      && !(IsPublished(doc) && Unpublished(doc, previousDoc))
  {
  }

  /** A path is invalidated by the after-change hook exactly when it is the
      page of the published article or the old page of a just-unpublished one. */
  lemma AfterChangeInvalidatesPath(doc: Doc, previousDoc: Option<Doc>, ctx: Ctx, p: string)
    ensures RevalidatePath(p) in AfterChange(doc, previousDoc, ctx).actions <==>
      && !ctx.disableRevalidate
      && ((IsPublished(doc) && p == ResolvePath(doc.slug))
          || (Unpublished(doc, previousDoc) && p == ResolvePath(previousDoc.value.slug)))
  {
  }

  /** Renaming an article while it stays published invalidates only the new
      page: the page at the old slug is not invalidated unless both slugs
      resolve to the same path. */
  lemma RenameWhilePublishedKeepsOldPage(doc: Doc, previous: Doc, ctx: Ctx)
    requires IsPublished(doc) && IsPublished(previous)
    ensures RevalidatePath(ResolvePath(previous.slug)) in AfterChange(doc, Some(previous), ctx).actions
      <==> !ctx.disableRevalidate && ResolvePath(previous.slug) == ResolvePath(doc.slug)
  {
  }

  /** A publish followed by an unpublish of the same article invalidates the
      two different sitemap tags, never the same one twice. */
  lemma PublishCycleTags(draft: Doc, live: Doc, ctx: Ctx)
    requires !ctx.disableRevalidate && !IsPublished(draft) && IsPublished(live)
    ensures var publish := AfterChange(live, Some(draft), ctx).actions;
      var unpublish := AfterChange(draft, Some(live), ctx).actions;
      && publish[1] == RevalidateTag("srticles-sitemap")
      && unpublish[1] == RevalidateTag("articles-sitemap")
      && publish[1] != unpublish[1]
  {
  }

  // ---------------------------------------------------------------------
  // The after-delete hook

  /** Deleting invalidates the same things whatever the deleted article's
      status was: only its slug matters. */
  lemma AfterDeleteIgnoresStatus(a: Doc, b: Doc, ctx: Ctx)
    requires a.slug == b.slug
    ensures AfterDelete(Some(a), ctx).actions == AfterDelete(Some(b), ctx).actions
  {
  }

  /** A delete without a document still invalidates the page `/undefined`
      and the pages sitemap tag. */
  lemma AfterDeleteMissingDoc(ctx: Ctx)
    requires !ctx.disableRevalidate
    ensures AfterDelete(None, ctx).actions
      == [RevalidatePath("/undefined"), RevalidateTag("pages-sitemap")]
  {
    assert DeletedSlug(None) == Undefined;
    assert ResolvePath(Undefined) == "/" + "undefined" == "/undefined";
    assert DeleteTag == "pages-sitemap";
  }
}
