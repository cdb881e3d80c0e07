/**
 * The read side of the blog over a snapshot of the post table: the fields a
 * query looks at, one row per post, a post's id being its position. A viewer
 * who is not logged in never sees a draft: lists and the next/previous
 * links leave drafts out for that viewer, and asking for a draft by its slug
 * is refused as unauthorized, which is not the same answer as "no such post".
 */
module Queries {
  import opened Wrappers

  type Timestamp = int
  type TagId = nat

  datatype PostRow = PostRow(slug: Option<string>, date: Timestamp, isDraft: bool, tags: set<TagId>)

  /** The HTTP errors the handlers raise. */
  datatype HttpError = NotFound | Unauthorized | BadRequest | InternalServerError

  /** What the post page shows: the post and its neighbours in date order. */
  datatype PostPage = PostPage(post: nat, next: Option<nat>, prev: Option<nat>)

  predicate VisibleTo(row: PostRow, authenticated: bool) {
    authenticated || !row.isDraft
  }

  /** `Post.get_by_slug(slug)`: the first post with that slug. */
  function FindBySlug(rows: seq<PostRow>, slug: string): (r: Option<nat>)
    ensures r.Some? ==> r.value < |rows| && rows[r.value].slug == Some(slug)
                        && forall j :: 0 <= j < r.value ==> rows[j].slug != Some(slug)
    ensures r.None? ==> forall j :: 0 <= j < |rows| ==> rows[j].slug != Some(slug)
  {
    if rows == [] then None
    else if rows[0].slug == Some(slug) then Some(0)
    else match FindBySlug(rows[1..], slug)
      case None => None
      case Some(i) => Some(i + 1)
  }

  /** The slugs in use. */
  function TakenSlugs(rows: seq<PostRow>): (taken: set<string>)
    ensures forall s :: s in taken <==> exists i :: 0 <= i < |rows| && rows[i].slug == Some(s)
  {
    set i | 0 <= i < |rows| && rows[i].slug.Some? :: rows[i].slug.value
  }

  /** The unique constraint on the slug column (posts without a slug are exempt). */
  predicate SlugsUnique(rows: seq<PostRow>) {
    forall i, j :: 0 <= i < |rows| && 0 <= j < |rows| && i != j && rows[i].slug.Some? ==> rows[i].slug != rows[j].slug
  }

  /** Every tag a post carries is in the tag table (of `tagCount` tags). */
  predicate TagsExist(rows: seq<PostRow>, tagCount: nat) {
    forall i, t :: 0 <= i < |rows| && t in rows[i].tags ==> t < tagCount
  }

  /** With unique slugs, the post found by a slug is the only one that has it. */
  lemma FindBySlugUnique(rows: seq<PostRow>, slug: string, i: nat)
    requires SlugsUnique(rows)
    requires i < |rows| && rows[i].slug == Some(slug)
    ensures FindBySlug(rows, slug) == Some(i)
  {
    var r := FindBySlug(rows, slug);
    assert r.Some?;
    assert rows[r.value].slug == rows[i].slug;
  }

  // ------------------------------------------------------------ navigation

  predicate IsAfter(row: PostRow, date: Timestamp, authenticated: bool) {
    VisibleTo(row, authenticated) && row.date > date
  }

  predicate IsBefore(row: PostRow, date: Timestamp, authenticated: bool) {
    VisibleTo(row, authenticated) && row.date < date
  }

  /**
   * The next post: among the posts the viewer may see, one with the
   * earliest date strictly after `date`. Posts sharing that date are not
   * ordered by the query; this model returns the first of them in the table.
   */
  function NextPost(rows: seq<PostRow>, date: Timestamp, authenticated: bool): (r: Option<nat>)
    ensures r.Some? ==> r.value < |rows| && IsAfter(rows[r.value], date, authenticated)
                        && forall j :: 0 <= j < |rows| && IsAfter(rows[j], date, authenticated) ==>
                             rows[r.value].date <= rows[j].date
    ensures r.None? ==> forall j :: 0 <= j < |rows| ==> !IsAfter(rows[j], date, authenticated)
  {
    if rows == [] then None
    else
      var last := |rows| - 1;
      var best := NextPost(rows[..last], date, authenticated);
      if IsAfter(rows[last], date, authenticated) && (best.None? || rows[last].date < rows[best.value].date)
      then Some(last)
      else best
  }

  /** The previous post: one with the latest date strictly before `date`, the same way. */
  function PrevPost(rows: seq<PostRow>, date: Timestamp, authenticated: bool): (r: Option<nat>)
    ensures r.Some? ==> r.value < |rows| && IsBefore(rows[r.value], date, authenticated)
                        && forall j :: 0 <= j < |rows| && IsBefore(rows[j], date, authenticated) ==>
                             rows[j].date <= rows[r.value].date
    ensures r.None? ==> forall j :: 0 <= j < |rows| ==> !IsBefore(rows[j], date, authenticated)
  {
    if rows == [] then None
    else
      var last := |rows| - 1;
      var best := PrevPost(rows[..last], date, authenticated);
      if IsBefore(rows[last], date, authenticated) && (best.None? || rows[last].date > rows[best.value].date)
      then Some(last)
      else best
  }

  /**
   * `get_post(slug)`: not found when no post has the slug; unauthorized when
   * it is a draft and the viewer is not logged in; otherwise the post with
   * its next and previous posts as the viewer may see them.
   */
  function GetPost(rows: seq<PostRow>, slug: string, authenticated: bool): (r: Result<PostPage, HttpError>)
    ensures r == Err(NotFound) <==> FindBySlug(rows, slug).None?
    ensures r == Err(Unauthorized) <==>
              FindBySlug(rows, slug).Some? && rows[FindBySlug(rows, slug).value].isDraft && !authenticated
    ensures r.Err? ==> r.error == NotFound || r.error == Unauthorized
    ensures r.Ok? ==>
              && FindBySlug(rows, slug) == Some(r.value.post)
              && VisibleTo(rows[r.value.post], authenticated)
              && r.value.next == NextPost(rows, rows[r.value.post].date, authenticated)
              && r.value.prev == PrevPost(rows, rows[r.value.post].date, authenticated)
  {
    match FindBySlug(rows, slug)
    case None => Err(NotFound)
    case Some(i) =>
      if rows[i].isDraft && !authenticated then Err(Unauthorized)
      else Ok(PostPage(i, NextPost(rows, rows[i].date, authenticated), PrevPost(rows, rows[i].date, authenticated)))
  }

  // ------------------------------------------------------------ listings

  predicate Increasing(ids: seq<nat>) {
    forall a, b :: 0 <= a < b < |ids| ==> ids[a] < ids[b]
  }

  /** The ids of the posts satisfying `keep`, in table order. */
  function IdsWhere(rows: seq<PostRow>, keep: PostRow -> bool): (ids: seq<nat>)
    ensures forall k :: 0 <= k < |ids| ==> ids[k] < |rows| && keep(rows[ids[k]])
    ensures forall i :: 0 <= i < |rows| && keep(rows[i]) ==> i in ids
    ensures Increasing(ids)
  {
    if rows == [] then []
    else
      var last := |rows| - 1;
      var ids := IdsWhere(rows[..last], keep);
      if keep(rows[last]) then ids + [last] else ids
  }

  predicate ValidIds(rows: seq<PostRow>, ids: seq<nat>) {
    forall k :: 0 <= k < |ids| ==> ids[k] < |rows|
  }

  predicate SortedByDateDesc(rows: seq<PostRow>, ids: seq<nat>)
    requires ValidIds(rows, ids)
  {
    forall a, b :: 0 <= a < b < |ids| ==> rows[ids[a]].date >= rows[ids[b]].date
  }

  /** Puts `x` into a list sorted latest first, before the first post that is not later. */
  function InsertByDate(rows: seq<PostRow>, x: nat, ids: seq<nat>): (r: seq<nat>)
    requires x < |rows| && ValidIds(rows, ids) && SortedByDateDesc(rows, ids)
    ensures |r| == |ids| + 1
    ensures ValidIds(rows, r)
    ensures multiset(r) == multiset(ids) + multiset{x}
  {
    if ids == [] || rows[x].date >= rows[ids[0]].date then
      [x] + ids
    else
      var tail := ids[1..];
      SortedTail(rows, ids);
      var rest := InsertByDate(rows, x, tail);
      var r := [ids[0]] + rest;
      assert multiset(r) == multiset(ids) + multiset{x} by {
        assert ids == [ids[0]] + tail;
        assert multiset(r) == multiset{ids[0]} + multiset(rest);
      }
      r
  }

  /** The tail of a sorted list is sorted. */
  lemma SortedTail(rows: seq<PostRow>, ids: seq<nat>)
    requires ids != [] && ValidIds(rows, ids) && SortedByDateDesc(rows, ids)
    ensures ValidIds(rows, ids[1..]) && SortedByDateDesc(rows, ids[1..])
  {
    var tail := ids[1..];
    forall a, b | 0 <= a < b < |tail| ensures rows[tail[a]].date >= rows[tail[b]].date {
      assert tail[a] == ids[a + 1] && tail[b] == ids[b + 1];
    }
  }

  /** A post no earlier than every post of a sorted list can go in front of it. */
  lemma ConsSorted(rows: seq<PostRow>, h: nat, ids: seq<nat>)
    requires h < |rows| && ValidIds(rows, ids) && SortedByDateDesc(rows, ids)
    requires forall k :: 0 <= k < |ids| ==> rows[h].date >= rows[ids[k]].date
    ensures ValidIds(rows, [h] + ids) && SortedByDateDesc(rows, [h] + ids)
  {
    var r := [h] + ids;
    forall a, b | 0 <= a < b < |r| ensures rows[r[a]].date >= rows[r[b]].date {
      assert r[b] == ids[b - 1];
      if a > 0 { assert r[a] == ids[a - 1]; }
    }
  }

  /** Insertion keeps the list sorted. */
  lemma {:induction false} InsertByDateSorted(rows: seq<PostRow>, x: nat, ids: seq<nat>)
    requires x < |rows| && ValidIds(rows, ids) && SortedByDateDesc(rows, ids)
    ensures SortedByDateDesc(rows, InsertByDate(rows, x, ids))
  {
    if ids == [] || rows[x].date >= rows[ids[0]].date {
      ConsSorted(rows, x, ids);
    } else {
      var tail := ids[1..];
      var rest := InsertByDate(rows, x, tail);
      InsertByDateSorted(rows, x, tail);
      forall k | 0 <= k < |rest| ensures rows[ids[0]].date >= rows[rest[k]].date {
        assert rest[k] in multiset(rest);
        if rest[k] != x {
          assert rest[k] in multiset(tail);
          var j :| 0 <= j < |tail| && tail[j] == rest[k];
          assert ids[j + 1] == rest[k];
        }
      }
      ConsSorted(rows, ids[0], rest);
    }
  }

  /** Orders ids by date, latest first. */
  function SortByDateDesc(rows: seq<PostRow>, ids: seq<nat>): (r: seq<nat>)
    requires ValidIds(rows, ids)
    ensures ValidIds(rows, r) && SortedByDateDesc(rows, r)
    ensures multiset(r) == multiset(ids)
  {
    if ids == [] then []
    else
      assert ids == [ids[0]] + ids[1..];
      var sorted := SortByDateDesc(rows, ids[1..]);
      InsertByDateSorted(rows, ids[0], sorted);
      InsertByDate(rows, ids[0], sorted)
  }

  /** The posts the viewer may see, in table order. */
  function VisibleIds(rows: seq<PostRow>, authenticated: bool): (r: seq<nat>)
    ensures Increasing(r) && ValidIds(rows, r)
    ensures forall i: nat :: i in r <==> i < |rows| && VisibleTo(rows[i], authenticated)
  {
    IdsWhere(rows, (row: PostRow) => VisibleTo(row, authenticated))
  }

  /**
   * `index()`: the posts the viewer may see (drafts only for a logged-in
   * viewer), each once, latest first. Pagination is not modelled.
   */
  function Index(rows: seq<PostRow>, authenticated: bool): (r: seq<nat>)
    ensures ValidIds(rows, r) && SortedByDateDesc(rows, r)
    ensures multiset(r) == multiset(VisibleIds(rows, authenticated))
    ensures forall i: nat :: i in r <==> i < |rows| && VisibleTo(rows[i], authenticated)
  {
    var visible := VisibleIds(rows, authenticated);
    var r := SortByDateDesc(rows, visible);
    assert forall i: nat :: i in r <==> i in multiset(r);
    r
  }

  /** `tag.posts`, without drafts for a viewer who is not logged in, in table order. */
  function TaggedPosts(rows: seq<PostRow>, tag: TagId, authenticated: bool): (r: seq<nat>)
    ensures Increasing(r)
    ensures forall i: nat :: i in r <==> i < |rows| && tag in rows[i].tags && VisibleTo(rows[i], authenticated)
  {
    IdsWhere(rows, (row: PostRow) => tag in row.tags && VisibleTo(row, authenticated))
  }

  /**
   * `get_tag(tag_id)` as written: the tag is fetched by id and its posts are
   * read from it without checking that it exists, so a missing tag fails
   * with an attribute error on `None`, which the web server answers with an
   * internal server error.
   */
  function GetTagAsWritten(tagCount: nat, rows: seq<PostRow>, tag: TagId, authenticated: bool): (r: Result<seq<nat>, HttpError>)
    ensures tag < tagCount ==> r == Ok(TaggedPosts(rows, tag, authenticated))
    ensures tag >= tagCount ==> r == Err(InternalServerError)
  {
    if tag < tagCount then Ok(TaggedPosts(rows, tag, authenticated)) else Err(InternalServerError)
  }

  /** A missing tag id reaches the server error, not the not-found answer `get_post` gives. */
  lemma MissingTagIsServerError(rows: seq<PostRow>, authenticated: bool)
    ensures GetTagAsWritten(0, rows, 0, authenticated) == Err(InternalServerError)
    ensures GetTag(0, rows, 0, authenticated) == Err(NotFound)
  {
  }

  /**
   * `get_tag(tag_id)` as intended: not found when no tag has the id, and
   * otherwise the visible posts carrying the tag.
   */
  function GetTag(tagCount: nat, rows: seq<PostRow>, tag: TagId, authenticated: bool): (r: Result<seq<nat>, HttpError>)
    ensures r.Err? <==> tag >= tagCount
    ensures r.Err? ==> r.error == NotFound
    ensures r.Ok? ==> forall i: nat :: i in r.value <==> i < |rows| && tag in rows[i].tags && VisibleTo(rows[i], authenticated)
  {
    if tag < tagCount then Ok(TaggedPosts(rows, tag, authenticated)) else Err(NotFound)
  }
}
