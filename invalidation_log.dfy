/**
 * A view of successive hook invocations; the program itself has no such
 * run, since Payload calls the Article hooks once per lifecycle event. Each
 * call depends only on its own arguments, which holds here by construction
 * (every hook is a function of them). This module strings calls together
 * into the log of invalidations the Next.js cache receives, and proves that
 * the log is made of pairs of a page path followed by one of the three
 * sitemap tags, two actions for every call that fires.
 */
module InvalidationLog {
  import opened Wrappers
  import opened RevalidateArticle

  /** One invocation of an Article hook. */
  datatype Event =
    | Changed(doc: Doc, previousDoc: Option<Doc>, ctx: Ctx)
    | Deleted(deleted: Option<Doc>, ctx: Ctx)

  /** The invalidations one invocation issues. */
  function Emitted(e: Event): (actions: seq<Action>)
    ensures |actions| == 0 || |actions| == 2
    ensures e.ctx.disableRevalidate ==> actions == []
    ensures |actions| == 2 ==>
      actions[0].RevalidatePath? && actions[1].RevalidateTag? && KnownTag(actions[1].tag)
  {
    match e
    case Changed(doc, previousDoc, ctx) => AfterChange(doc, previousDoc, ctx).actions
    case Deleted(doc, ctx) => AfterDelete(doc, ctx).actions
  }

  /** The tag literals the hooks use. */
  predicate KnownTag(t: string) {
    t == PublishTag || t == UnpublishTag || t == DeleteTag
  }

  /** A log made of page-path invalidations, each followed by a sitemap tag. */
  predicate Paired(log: seq<Action>) {
    || log == []
    || (&& |log| >= 2
        && log[0].RevalidatePath?
        && log[1].RevalidateTag? && KnownTag(log[1].tag)
        && Paired(log[2..]))
  }

  /** When an invocation issues anything: the reference reading of both hooks. */
  predicate Fires(e: Event) {
    match e
    case Changed(doc, previousDoc, ctx) =>
      !ctx.disableRevalidate && (IsPublished(doc) || Unpublished(doc, previousDoc))
    case Deleted(_, ctx) => !ctx.disableRevalidate
  }

  /** The number of invocations in `events` that issue invalidations. */
  function FiringCount(events: seq<Event>): (n: nat)
  {
    if events == [] then 0
    else (if Fires(events[0]) then 1 else 0) + FiringCount(events[1..])
  }

  /** Everything the cache is told over a run of invocations, in order. */
  function Log(events: seq<Event>): (log: seq<Action>)
    ensures Paired(log)
  {
    if events == [] then []
    else
      var head := Emitted(events[0]);
      var rest := Log(events[1..]);
      assert head == [] ==> head + rest == rest;
      assert head != [] ==> (head + rest)[2..] == rest;
      head + rest
  }

  /** Each invocation issues invalidations exactly when `Fires` says so,
      and then exactly one path and one tag. */
  lemma EmittedFires(e: Event)
    ensures Fires(e) <==> |Emitted(e)| == 2
  {
    match e
    case Changed(doc, previousDoc, ctx) => AfterChangeFires(doc, previousDoc, ctx);
    case Deleted(_, _) =>
  }

  /** The log holds one path and one tag for every invocation that fires. */
  lemma {:induction false} LogLength(events: seq<Event>)
    ensures |Log(events)| == 2 * FiringCount(events)
  {
    if events != [] {
      EmittedFires(events[0]);
      LogLength(events[1..]);
    }
  }

  /** A run in which every request disables revalidation tells the cache nothing. */
  lemma {:induction false} LogSuppressed(events: seq<Event>)
    requires forall i :: 0 <= i < |events| ==> events[i].ctx.disableRevalidate
    ensures Log(events) == []
  {
    if events != [] {
      LogSuppressed(events[1..]);
    }
  }
}
