/**
 * The post entity and the tables it lives in. A `Post` is an object whose
 * setters keep its derived fields in step: assigning the content recomputes
 * the summary, and assigning a title gives the post a slug when it has none
 * yet. A `Blog` holds the post table and the tag table (a tag's id is its
 * position) and carries out the create and edit requests and the
 * `--reset-slug` and `--reset-summary` maintenance commands.
 */
module Content {
  import opened Wrappers
  import opened Text
  import opened Slugs
  import opened Queries
  import Summary
  import Tags

  /** `not self.slug`: the post has no slug yet (NULL or the empty string). */
  predicate SlugUnset(slug: Option<string>) {
    slug.None? || slug.value == []
  }

  /** The content setter stores `None` as the empty string. */
  function ContentText(value: Option<string>): string {
    match value
    case None => []
    case Some(text) => text
  }

  /** Create and edit accept a (stripped) title only if it is non-empty and slugifies to something that is not blank. */
  predicate TitleAccepted(title: string, slugify: string -> string) {
    title != [] && Strip(slugify(title)) != []
  }

  /** The ids the names resolve to in `table`: for each name, the first tag carrying it. */
  function Resolved(table: seq<string>, names: set<string>): (ids: set<TagId>)
    ensures forall id :: id in ids ==> id < |table| && table[id] in names
  {
    set n | n in names && Tags.FindTag(table, n).Some? :: Tags.FindTag(table, n).value
  }

  /**
   * `table` is `before` with a tag appended for each name of `names` that no
   * tag had: every name is now a tag, and each appended tag is one of the
   * names and was not a tag yet.
   */
  ghost predicate TagsAdded(before: seq<string>, table: seq<string>, names: set<string>) {
    && |before| <= |table| && table[..|before|] == before
    && (forall n :: n in names ==> n in table)
    && (forall i :: |before| <= i < |table| ==> table[i] in names && table[i] !in table[..i])
  }

  /**
   * `Post.get_unique_slug(title)`, with `taken` the slugs stored posts have:
   * `slugify(title)` if it is free, else the first free retry. The loop
   * counts the retries; it stops because some retry is free.
   */
  method GetUniqueSlug(taken: set<string>, slugify: string -> string, title: string) returns (slug: string)
    requires slugify(title) in taken ==> SomeRetryFree(taken, slugify, title)
    ensures IsUniqueSlug(taken, slugify, title, slug)
  {
    slug := slugify(title);
    if slug in taken {
      ghost var free: nat :| free >= 1 && Retry(slugify, title, free) !in taken;
      var i: nat := 1;
      while slug in taken
        invariant 1 <= i <= free + 1
        invariant i == 1 ==> slug == slugify(title)
        invariant i > 1 ==> slug == Retry(slugify, title, i - 1)
        invariant RetriesTaken(taken, slugify, title, i - 1)
        decreases free + 1 - i
      {
        if i > 1 {
          RetriesTakenStep(taken, slugify, title, i - 1);
        }
        slug := Retry(slugify, title, i);
        i := i + 1;
      }
      assert i > 1;
      assert slug == Retry(slugify, title, i - 1);
    }
  }

  /**
   * What an edit leaves in `post`: the title and content as given (the
   * summary recomputed), the notes, draft flag and tags overwritten, the
   * creation date kept and the last-updated date set to `now`; a post
   * without a slug that gets a non-empty title also gets the unique slug
   * for it, and any other post keeps its slug.
   */
  twostate predicate Revised(post: Post, title: string, content: string, notes: string, isDraft: bool,
                             now: Timestamp, ids: set<TagId>, taken: set<string>, slugify: string -> string)
    reads post
  {
    && post.title == title && post.content == content
    && post.summary == Summary.Summarize(content)
    && post.notes == Some(notes) && post.isDraft == isDraft
    && post.date == old(post.date) && post.lastUpdatedDate == now
    && (SlugUnset(old(post.slug)) && title != [] ==>
          post.slug.Some? && IsUniqueSlug(taken, slugify, title, post.slug.value))
    && (!(SlugUnset(old(post.slug)) && title != []) ==> post.slug == old(post.slug))
    && post.tags == ids
  }
  class Post {
    var title: string
    var slug: Option<string>
    var content: string
    var summary: string
    var notes: Option<string>
    var date: Timestamp
    var lastUpdatedDate: Timestamp
    var isDraft: bool
    var tags: set<TagId>

    /** What the queries see of this post. */
    function Row(): PostRow
      reads this
    {
      PostRow(slug, date, isDraft, tags)
    }

    /**
     * `Post(title, content, date, is_draft, notes)`: the title goes through
     * its setter (so a non-empty title gets a fresh slug), the content
     * through its setter, and the last-updated date starts as the date.
     */
    constructor (title: string, content: Option<string>, date: Timestamp, isDraft: bool, notes: Option<string>,
                 taken: set<string>, slugify: string -> string)
      requires title != [] ==> RetriesDistinct(slugify, title)
      ensures this.title == title && this.content == ContentText(content)
      ensures summary == Summary.Summarize(ContentText(content))
      ensures this.date == date && lastUpdatedDate == date
      ensures this.isDraft == isDraft && this.notes == notes && tags == {}
      ensures title == [] ==> slug == None
      ensures title != [] ==> slug.Some? && IsUniqueSlug(taken, slugify, title, slug.value)
    {
      slug := None;
      tags := {};
      this.date := date;
      lastUpdatedDate := date;
      this.isDraft := isDraft;
      this.notes := notes;
      new;
      SetTitle(title, taken, slugify);
      SetContent(content);
    }

    /** The content setter: `None` becomes the empty string and the summary is recomputed. */
    method SetContent(value: Option<string>)
      modifies this
      ensures content == ContentText(value) && summary == Summary.Summarize(ContentText(value))
      ensures title == old(title) && slug == old(slug) && notes == old(notes) && date == old(date)
      ensures lastUpdatedDate == old(lastUpdatedDate) && isDraft == old(isDraft) && tags == old(tags)
    {
      content := ContentText(value);
      summary := Summary.Summarize(content);
    }

    /**
     * The title setter: a post without a slug that receives a non-empty
     * title gets the unique slug for it; otherwise the slug stays as it is.
     */
    method SetTitle(value: string, taken: set<string>, slugify: string -> string)
      requires SlugUnset(slug) && value != [] ==> RetriesDistinct(slugify, value)
      modifies this
      ensures title == value
      ensures SlugUnset(old(slug)) && value != [] ==>
                slug.Some? && IsUniqueSlug(taken, slugify, value, slug.value)
      ensures !(SlugUnset(old(slug)) && value != []) ==> slug == old(slug)
      ensures content == old(content) && summary == old(summary) && notes == old(notes) && date == old(date)
      ensures lastUpdatedDate == old(lastUpdatedDate) && isDraft == old(isDraft) && tags == old(tags)
    {
      title := value;
      if SlugUnset(slug) && title != [] {
        FreeRetryExists(taken, slugify, title);
        var unique := GetUniqueSlug(taken, slugify, title);
        slug := Some(unique);
      }
    }

    /** `for ttr in tags_to_remove: post.tags.remove(ttr)`. */
    method RemoveTags(toRemove: set<TagId>)
      modifies this
      ensures tags == old(tags) - toRemove
      ensures title == old(title) && slug == old(slug) && content == old(content) && summary == old(summary)
      ensures notes == old(notes) && date == old(date) && lastUpdatedDate == old(lastUpdatedDate) && isDraft == old(isDraft)
    {
      var rest := toRemove;
      while rest != {}
        invariant rest <= toRemove
        invariant tags == old(tags) - (toRemove - rest)
        invariant title == old(title) && slug == old(slug) && content == old(content) && summary == old(summary)
        invariant notes == old(notes) && date == old(date) && lastUpdatedDate == old(lastUpdatedDate) && isDraft == old(isDraft)
        decreases rest
      {
        var t :| t in rest;
        tags := tags - {t};
        rest := rest - {t};
      }
    }

    /** `post.tags.extend(tags_to_add)`. */
    method ExtendTags(toAdd: set<TagId>)
      modifies this
      ensures tags == old(tags) + toAdd
      ensures title == old(title) && slug == old(slug) && content == old(content) && summary == old(summary)
      ensures notes == old(notes) && date == old(date) && lastUpdatedDate == old(lastUpdatedDate) && isDraft == old(isDraft)
    {
      tags := tags + toAdd;
    }

    /** `post.slug = post.get_unique_slug(post.title)`: the slug is replaced, whether set or not. */
    method Reslug(taken: set<string>, slugify: string -> string) returns (unique: string)
      requires RetriesDistinct(slugify, title)
      modifies this
      ensures slug == Some(unique) && IsUniqueSlug(taken, slugify, title, unique)
      ensures title == old(title) && content == old(content) && summary == old(summary) && notes == old(notes)
      ensures date == old(date) && lastUpdatedDate == old(lastUpdatedDate) && isDraft == old(isDraft) && tags == old(tags)
    {
      FreeRetryExists(taken, slugify, title);
      unique := GetUniqueSlug(taken, slugify, title);
      slug := Some(unique);
    }

    /**
     * The assignments `edit_post` makes to the post, in its order: title and
     * content through their setters, then notes, draft flag and last-updated
     * date, then the tags current − next removed and next − current added.
     */
    method Edit(newTitle: string, newContent: string, newNotes: string, draft: bool, now: Timestamp,
                ids: set<TagId>, taken: set<string>, slugify: string -> string)
      requires SlugUnset(slug) && newTitle != [] ==> RetriesDistinct(slugify, newTitle)
      modifies this
      ensures Revised(this, newTitle, newContent, newNotes, draft, now, ids, taken, slugify)
    {
      SetTitle(newTitle, taken, slugify);
      SetContent(Some(newContent));
      notes := Some(newNotes);
      isDraft := draft;
      lastUpdatedDate := now;
      var current := tags;
      RemoveTags(current - ids);
      ExtendTags(ids - current);
    }
  }

  /** The rows the queries see, one per post, in table order. */
  function RowsOf(ps: seq<Post>): (rows: seq<PostRow>)
    reads ps
    ensures |rows| == |ps| && forall i {:trigger rows[i]} :: 0 <= i < |ps| ==> rows[i] == ps[i].Row()
  {
    if ps == [] then [] else RowsOf(ps[..|ps| - 1]) + [ps[|ps| - 1].Row()]
  }

  /** Growing the table keeps every lookup that already succeeded: existing tags are reused. */
  lemma {:induction false} TagsAddedKeepsLookups(before: seq<string>, table: seq<string>, names: set<string>, name: string)
    requires TagsAdded(before, table, names)
    requires name in before
    ensures Tags.FindTag(table, name) == Tags.FindTag(before, name)
  {
    var i := Tags.FindTag(before, name).value;
    assert table[..|before|] == before;
    assert forall k :: 0 <= k <= i ==> table[k] == before[k];
  }

  /** Appending `name` changes no lookup of another name, and makes `name` found at the end. */
  lemma AppendLookups(table: seq<string>, name: string)
    requires name !in table
    ensures Tags.FindTag(table + [name], name) == Some(|table|)
    ensures forall n :: n != name ==> Tags.FindTag(table + [name], n) == Tags.FindTag(table, n)
  {
    forall n
      ensures Tags.FindTag(table + [name], n) == if Tags.FindTag(table, n).Some? then Tags.FindTag(table, n)
                                                 else if name == n then Some(|table|) else None
    {
      Tags.FindTagAppend(table, name, n);
    }
  }

  /** One step of the tag lookup loop, when the name is already a tag. */
  lemma ResolveFound(orig: seq<string>, table: seq<string>, done: set<string>, name: string)
    requires TagsAdded(orig, table, done) && name in table
    ensures TagsAdded(orig, table, done + {name})
    ensures Resolved(table, done + {name}) == Resolved(table, done) + {Tags.FindTag(table, name).value}
  {
  }

  /** One step of the tag lookup loop, when the name is appended as a new tag. */
  lemma ResolveAppended(orig: seq<string>, table: seq<string>, done: set<string>, name: string)
    requires TagsAdded(orig, table, done) && name !in done && name !in table
    ensures TagsAdded(orig, table + [name], done + {name})
    ensures Resolved(table + [name], done + {name}) == Resolved(table, done) + {|table|}
  {
    var next := table + [name];
    assert next[..|orig|] == orig by {
      assert next[..|table|] == table;
    }
    forall i | |orig| <= i < |next|
      ensures next[i] in done + {name} && next[i] !in next[..i]
    {
      if i < |table| {
        assert next[i] == table[i] && next[..i] == table[..i];
      } else {
        assert next[..i] == table;
      }
    }
    ResolvedAppend(table, done, name);
  }

  /** Resolving one more name, just appended to the table, adds its new id. */
  lemma ResolvedAppend(table: seq<string>, done: set<string>, name: string)
    requires name !in table && name !in done
    ensures Resolved(table + [name], done + {name}) == Resolved(table, done) + {|table|}
  {
    var next := table + [name];
    AppendLookups(table, name);
    forall x | x in Resolved(table, done)
      ensures x in Resolved(next, done + {name})
    {
      var n :| n in done && Tags.FindTag(table, n).Some? && Tags.FindTag(table, n).value == x;
      assert Tags.FindTag(next, n) == Tags.FindTag(table, n);
    }
    assert |table| in Resolved(next, done + {name}) by {
      assert Tags.FindTag(next, name) == Some(|table|);
    }
    forall x | x in Resolved(next, done + {name})
      ensures x in Resolved(table, done) + {|table|}
    {
      var n :| n in done + {name} && Tags.FindTag(next, n).Some? && Tags.FindTag(next, n).value == x;
      if n != name {
        assert Tags.FindTag(next, n) == Tags.FindTag(table, n);
      }
    }
  }

  /**
   * The tag lookup loop of edit and create, on the tag table `orig`: each
   * name resolves to the first tag with that name, or to a new tag appended
   * to the table.
   */
  method ResolveTags(orig: seq<string>, names: set<string>) returns (table: seq<string>, ids: set<TagId>)
    ensures TagsAdded(orig, table, names)
    ensures ids == Resolved(table, names)
  {
    table := orig;
    ids := {};
    var done: set<string> := {};
    var rest := names;
    while rest != {}
      invariant done + rest == names && done !! rest
      invariant TagsAdded(orig, table, done)
      invariant ids == Resolved(table, done)
      decreases rest
    {
      var name :| name in rest;
      var found := Tags.FindTag(table, name);
      if found.Some? {
        ResolveFound(orig, table, done, name);
        ids := ids + {found.value};
      } else {
        ResolveAppended(orig, table, done, name);
        ids := ids + {|table|};
        table := table + [name];
      }
      done := done + {name};
      rest := rest - {name};
    }
  }

  /** Storing a post whose slug is not taken keeps slugs unique. */
  lemma SlugsUniqueAppend(rows: seq<PostRow>, row: PostRow)
    requires SlugsUnique(rows)
    requires row.slug.Some? && row.slug.value !in TakenSlugs(rows)
    ensures SlugsUnique(rows + [row])
  {
    var next := rows + [row];
    forall i, j | 0 <= i < |next| && 0 <= j < |next| && i != j && next[i].slug.Some?
      ensures next[i].slug != next[j].slug
    {
      if i == |rows| {
        assert next[j] == rows[j];
      } else if j == |rows| {
        assert next[i] == rows[i];
      } else {
        assert next[i] == rows[i] && next[j] == rows[j];
      }
    }
  }

  /** Storing a post whose tags exist in a grown tag table keeps every tag in the table. */
  lemma TagsExistAppend(rows: seq<PostRow>, row: PostRow, count: nat, grown: nat)
    requires TagsExist(rows, count) && count <= grown
    requires forall t :: t in row.tags ==> t < grown
    ensures TagsExist(rows + [row], grown)
  {
    var next := rows + [row];
    forall i, t | 0 <= i < |next| && t in next[i].tags ensures t < grown {
      if i < |rows| {
        assert next[i] == rows[i];
      }
    }
  }

  /** Giving one post a slug that is not taken keeps slugs unique. */
  lemma SlugsUniqueUpdate(rows: seq<PostRow>, k: nat, row: PostRow)
    requires SlugsUnique(rows) && k < |rows|
    requires row.slug == rows[k].slug || (row.slug.Some? && row.slug.value !in TakenSlugs(rows))
    ensures SlugsUnique(rows[k := row])
  {
    var next := rows[k := row];
    forall i, j | 0 <= i < |next| && 0 <= j < |next| && i != j && next[i].slug.Some?
      ensures next[i].slug != next[j].slug
    {
      if i == k {
        assert next[j] == rows[j];
      } else if j == k {
        assert next[i] == rows[i];
      } else {
        assert next[i] == rows[i] && next[j] == rows[j];
      }
    }
  }

  class Blog {
    var posts: seq<Post>
    var tagNames: seq<string>

    /**
     * The table invariants: each post is stored once, slugs are unique, and
     * posts carry only tags that exist.
     */
    ghost predicate Valid()
      reads this, posts
    {
      && (forall i, j :: 0 <= i < j < |posts| ==> posts[i] != posts[j])
      && SlugsUnique(Rows())
      && TagsExist(Rows(), |tagNames|)
    }

    constructor ()
      ensures Valid() && posts == [] && tagNames == []
    {
      posts := [];
      tagNames := [];
    }

    function Rows(): (rows: seq<PostRow>)
      reads this, posts
      ensures |rows| == |posts| && forall i {:trigger rows[i]} :: 0 <= i < |posts| ==> rows[i] == posts[i].Row()
    {
      RowsOf(posts)
    }

    /** The slugs stored posts have. */
    function Slugs(): set<string>
      reads this, posts
    {
      TakenSlugs(Rows())
    }


    /**
     * `db.session.add(post)` and commit, for a post not yet stored: the post
     * and the tag table `table` (the current one with new tags appended)
     * become the stored ones.
     */
    method Store(post: Post, table: seq<string>)
      requires Valid()
      requires post !in posts
      requires post.slug.Some? && post.slug.value !in Slugs()
      requires |tagNames| <= |table| && forall t :: t in post.tags ==> t < |table|
      modifies this
      ensures Valid()
      ensures posts == old(posts) + [post] && tagNames == table
      ensures Rows() == old(Rows()) + [post.Row()]
    {
      ghost var rows := Rows();
      ghost var count := |tagNames|;
      posts := posts + [post];
      tagNames := table;
      assert posts[..|posts| - 1] == old(posts);
      assert Rows() == rows + [post.Row()];
      SlugsUniqueAppend(rows, post.Row());
      TagsExistAppend(rows, post.Row(), count, |table|);
      forall i, j | 0 <= i < j < |posts| ensures posts[i] != posts[j] {
        if j == |posts| - 1 {
          assert posts[i] in old(posts);
        } else {
          assert posts[i] == old(posts)[i] && posts[j] == old(posts)[j];
        }
      }
    }

    /**
     * The storing half of `create_new`: a new post with the accepted title
     * gets a fresh unique slug, its content summarized, both dates set to
     * `now` and the resolved tags `ids`; it is stored along with the tag
     * table `table` (the current one with new tags appended).
     */
    method AddPost(title: string, content: string, notes: string, isDraft: bool, now: Timestamp,
                   table: seq<string>, ids: set<TagId>, slugify: string -> string) returns (post: Post)
      requires Valid()
      requires title != [] && RetriesDistinct(slugify, title)
      requires |tagNames| <= |table| && forall t :: t in ids ==> t < |table|
      modifies this
      ensures Valid()
      ensures posts == old(posts) + [post] && fresh(post) && tagNames == table
      ensures Rows() == old(Rows()) + [post.Row()]
      ensures post.title == title && post.content == content && post.summary == Summary.Summarize(content)
      ensures post.notes == Some(notes) && post.isDraft == isDraft
      ensures post.date == now && post.lastUpdatedDate == now
      ensures post.slug.Some? && IsUniqueSlug(old(Slugs()), slugify, title, post.slug.value)
      ensures post.tags == ids
    {
      ghost var rows := Rows();
      post := new Post(title, Some(content), now, isDraft, Some(notes), Slugs(), slugify);
      assert post !in posts;
      assert Rows() == rows;
      post.ExtendTags(ids);
      assert Rows() == rows;
      Store(post, table);
    }

    /**
     * `create_new` on POST: only a signed-in author may post, and the title,
     * once stripped, must be accepted; then the tag names are resolved and
     * the post is stored.
     */
    method CreatePost(authenticated: bool, titleField: string, content: string, notes: string, isDraft: bool,
                      tagsField: string, now: Timestamp, slugify: string -> string) returns (r: Result<Post, HttpError>)
      requires Valid()
      requires authenticated && TitleAccepted(Strip(titleField), slugify) ==> RetriesDistinct(slugify, Strip(titleField))
      modifies this
      ensures Valid()
      ensures r.Err? <==> !authenticated || !TitleAccepted(Strip(titleField), slugify)
      ensures !authenticated ==> r == Err(Unauthorized)
      ensures authenticated && !TitleAccepted(Strip(titleField), slugify) ==> r == Err(BadRequest)
      ensures r.Err? ==> posts == old(posts) && tagNames == old(tagNames)
      ensures r.Ok? ==>
                && posts == old(posts) + [r.value] && fresh(r.value)
                && TagsAdded(old(tagNames), tagNames, Tags.ParseTagNames(tagsField))
                && r.value.title == Strip(titleField) && r.value.content == content
                && r.value.summary == Summary.Summarize(content)
                && r.value.notes == Some(notes) && r.value.isDraft == isDraft
                && r.value.date == now && r.value.lastUpdatedDate == now
                && r.value.slug.Some? && IsUniqueSlug(old(Slugs()), slugify, r.value.title, r.value.slug.value)
                && r.value.tags == Resolved(tagNames, Tags.ParseTagNames(tagsField))
    {
      if !authenticated {
        return Err(Unauthorized);
      }
      var title := Strip(titleField);
      if !TitleAccepted(title, slugify) {
        return Err(BadRequest);
      }
      var table, ids := ResolveTags(tagNames, Tags.ParseTagNames(tagsField));
      var post := AddPost(title, content, notes, isDraft, now, table, ids, slugify);
      r := Ok(post);
    }


    /**
     * The updating half of `edit_post` on the post at `id`: the title and
     * content go through their setters, notes, draft flag and last-updated
     * date are overwritten, and the tags become `ids` by removing the ones
     * no longer named and then adding the new ones; the tag table becomes
     * `table` (the current one with new tags appended).
     */
    method Revise(id: nat, title: string, content: string, notes: string, isDraft: bool, now: Timestamp,
                  table: seq<string>, ids: set<TagId>, slugify: string -> string)
      requires Valid() && id < |posts|
      requires title != [] && (SlugUnset(posts[id].slug) ==> RetriesDistinct(slugify, title))
      requires |tagNames| <= |table| && forall t :: t in ids ==> t < |table|
      modifies this, posts[id]
      ensures Valid()
      ensures posts == old(posts) && tagNames == table
      ensures Rows() == old(Rows())[id := posts[id].Row()]
      ensures Revised(posts[id], title, content, notes, isDraft, now, ids, old(Slugs()), slugify)
    {
      var post := posts[id];
      ghost var rows := Rows();
      post.Edit(title, content, notes, isDraft, now, ids, Slugs(), slugify);
      tagNames := table;
      forall i | 0 <= i < |posts|
        ensures Rows()[i] == rows[id := post.Row()][i]
      {
        if i != id {
          assert posts[i] != post;
          assert rows[i] == old(posts[i].Row());
        }
      }
      assert Rows() == rows[id := post.Row()];
      SlugsUniqueUpdate(rows, id, post.Row());
    }

    /**
     * `edit_post` on POST: only a signed-in author may edit; the post is
     * the one `get_by_slug` finds; the title, once stripped, must be
     * accepted; then the tag names are resolved and the post revised.
     */
    method EditPost(authenticated: bool, slug: string, titleField: string, content: string, notes: string,
                    isDraft: bool, tagsField: string, now: Timestamp, slugify: string -> string)
      returns (r: Result<nat, HttpError>)
      requires Valid()
      requires (authenticated && TitleAccepted(Strip(titleField), slugify) && FindBySlug(Rows(), slug).Some?
                && SlugUnset(posts[FindBySlug(Rows(), slug).value].slug)) ==> RetriesDistinct(slugify, Strip(titleField))
      modifies this, if FindBySlug(Rows(), slug).Some? then {posts[FindBySlug(Rows(), slug).value]} else {}
      ensures Valid()
      ensures posts == old(posts)
      ensures !authenticated ==> r == Err(Unauthorized)
      ensures authenticated && FindBySlug(old(Rows()), slug).None? ==> r == Err(NotFound)
      ensures authenticated && FindBySlug(old(Rows()), slug).Some? && !TitleAccepted(Strip(titleField), slugify) ==>
                r == Err(BadRequest)
      ensures authenticated && FindBySlug(old(Rows()), slug).Some? && TitleAccepted(Strip(titleField), slugify) ==>
                r == Ok(FindBySlug(old(Rows()), slug).value)
      ensures r.Err? ==> unchanged(this) && unchanged(posts)
      ensures r.Ok? ==>
                && r.value < |posts|
                && Rows() == old(Rows())[r.value := posts[r.value].Row()]
                && TagsAdded(old(tagNames), tagNames, Tags.ParseTagNames(tagsField))
      ensures r.Ok? ==>
                Revised(posts[r.value], Strip(titleField), content, notes, isDraft, now,
                        Resolved(tagNames, Tags.ParseTagNames(tagsField)), old(Slugs()), slugify)
    {
      var found := FindBySlug(Rows(), slug);
      var title := Strip(titleField);
      if !authenticated {
        r := Err(Unauthorized);
      } else if found.None? {
        r := Err(NotFound);
      } else if !TitleAccepted(title, slugify) {
        r := Err(BadRequest);
      } else {
        var table, ids := ResolveTags(tagNames, Tags.ParseTagNames(tagsField));
        Revise(found.value, title, content, notes, isDraft, now, table, ids, slugify);
        r := Ok(found.value);
      }
    }

    /**
     * `reset_slug(post_id)`: the post gets the unique slug for its title,
     * computed while its own old slug still counts as taken; a missing post
     * is `NotFound`.
     */
    method ResetSlug(id: nat, slugify: string -> string) returns (r: Result<string, HttpError>)
      requires Valid()
      requires id < |posts| ==> RetriesDistinct(slugify, posts[id].title)
      modifies if id < |posts| then {posts[id]} else {}
      ensures Valid()
      ensures id >= |posts| <==> r == Err(NotFound)
      ensures id < |posts| ==> r.Ok?
      ensures r.Ok? ==>
                && posts[id].slug == Some(r.value)
                && IsUniqueSlug(old(Slugs()), slugify, posts[id].title, r.value)
                && old(posts[id].slug) != Some(r.value)
                && Rows() == old(Rows())[id := posts[id].Row()]
      ensures r.Ok? ==>
                && posts[id].title == old(posts[id].title) && posts[id].content == old(posts[id].content)
                && posts[id].summary == old(posts[id].summary) && posts[id].notes == old(posts[id].notes)
                && posts[id].date == old(posts[id].date) && posts[id].lastUpdatedDate == old(posts[id].lastUpdatedDate)
                && posts[id].isDraft == old(posts[id].isDraft) && posts[id].tags == old(posts[id].tags)
    {
      if id >= |posts| {
        return Err(NotFound);
      }
      var post := posts[id];
      ghost var rows := Rows();
      assert old(post.slug).Some? ==> old(post.slug).value in Slugs() by {
        assert rows[id].slug == post.slug;
      }
      var unique := post.Reslug(Slugs(), slugify);
      r := Ok(unique);
      forall i | 0 <= i < |posts|
        ensures Rows()[i] == rows[id := post.Row()][i]
      {
        if i != id {
          assert posts[i] != post;
          assert rows[i] == old(posts[i].Row());
        }
      }
      assert Rows() == rows[id := post.Row()];
      SlugsUniqueUpdate(rows, id, post.Row());
    }

    /**
     * The `--reset-summary` command: the post's content is assigned to
     * itself, so its summary is recomputed; `false` when no post has the id.
     */
    method ResetSummary(id: nat) returns (found: bool)
      requires Valid()
      modifies if id < |posts| then {posts[id]} else {}
      ensures Valid()
      ensures found <==> id < |posts|
      ensures Rows() == old(Rows())
      ensures found ==>
                && posts[id].summary == Summary.Summarize(old(posts[id].content))
                && posts[id].content == old(posts[id].content) && posts[id].title == old(posts[id].title)
                && posts[id].notes == old(posts[id].notes) && posts[id].lastUpdatedDate == old(posts[id].lastUpdatedDate)
    {
      if id >= |posts| {
        return false;
      }
      var post := posts[id];
      ghost var rows := Rows();
      post.SetContent(Some(post.content));
      found := true;
      forall i | 0 <= i < |posts|
        ensures Rows()[i] == rows[i]
      {
        if i != id {
          assert posts[i] != post;
        }
        assert rows[i] == old(posts[i].Row());
      }
      assert Rows() == rows;
    }
  }
}
