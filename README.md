# Plantagenet content model in Dafny

Plantagenet is a single-author blog (`plantagenet.py`). Readers see published posts, the
posts of a tag and next/previous links; the signed-in author creates and edits posts and
drafts; a command line resets slugs and summaries and sets or clears site options. This
project models the content logic behind those pages and commands and proves its contracts:

- **Summary** (`summary.dfy`): the summary a post stores beside its content. Four
  regular-expression substitutions are each modelled as a left-to-right scan, as `re.sub`
  performs them:
  - tags are removed;
  - characters outside `a-zA-Z0-9,.?!` become spaces;
  - each mark gets exactly one space after it;
  - whitespace runs collapse to one space.

  Then comes truncation to 100 characters plus `...`. Nothing trims the result, so a
  summary can end in a space.
- **Text** (`text.dfy`): the Python string operations the handlers use:
  - `str.strip()` and the whitespace class behind it;
  - `str.split(',')` and its inverse `join`;
  - `str(n)` for the slug retry counter.
- **Slugs** (`slugs.dfy`): what `get_unique_slug` returns. It is `slugify(title)` when that
  slug is free, otherwise the first free `slugify(title + " " + i)`. A counting lemma shows
  that such an `i` exists when the retries never repeat a slug.
- **Tags** (`tags.dfy`): the tag names parsed from the comma-separated form field, and tag
  lookup by name in the tag table.
- **Queries** (`queries.dfy`): the read side over a snapshot of the post table. It covers
  `get_post` (not found, unauthorized, next and previous post), the index and the tag page.
  A reader who is not signed in never sees a draft.
- **Content** (`content.dfy`): the mutable side.
  - `Post` is a class whose setters keep derived fields in step. The content setter
    recomputes the summary. The title setter gives a post without a slug a unique one.
  - `Blog` holds the post table and the tag table. It carries out create and edit, with
    title validation, tag resolution and the in-place tag diff. It also runs the
    `--reset-slug` and `--reset-summary` commands. It keeps slugs unique and tag ids
    valid across all of them.
- **OptionStore** (`options.dfy`): the option table. `Options.get` falls back to a
  default; `--set-option` upserts a record; `--clear-option` deletes one.

Some choices about how the model represents the application:

- `slugify` is a parameter of type `string -> string`. Nothing is assumed about it except that its retries never repeat a slug wherever `get_unique_slug` is called (see "## Left out").
- Timestamps are caller-supplied integers.
- A post's id and a tag's id are their positions in their tables.
- Whether the viewer is signed in is a boolean parameter.

`summarize("<p>Hi, world!</p>")` gives `"Hi, world! "`, with a trailing space: stage 3 puts
a space after the `!` and nothing trims it. `SummaryExamples.TrailingSpaceKept` proves the
same behaviour on `"<b>Hi!</b>"`.

## Model

| member | source | states |
|---|---|---|
| Text.IsSpace | plantagenet.py:440 | the whitespace `str.strip()` removes, the same class `\s` matches in the substitutions at plantagenet.py:247-248 |
| Text.Strip | plantagenet.py:440 | `title.strip()`: the result starts and ends with a non-whitespace character (or is empty) and uses only characters of the input |
| Text.StripIsInfix | plantagenet.py:440 | the stripped text is the infix of the input that starts right after the leading whitespace |
| Text.StripRemovesSpaces | plantagenet.py:440 | everything strip drops after that infix is whitespace, so strip removes exactly the two whitespace runs |
| Text.StripEmptyIffAllSpaces | plantagenet.py:440-441 | `not title` after stripping holds exactly when the submitted title is all whitespace |
| Text.Split | plantagenet.py:458 | `tags.split(',')` gives at least one piece and no piece contains the separator |
| Text.JoinSplit | plantagenet.py:458 | joining the pieces of a split with the separator gives back the original text |
| Text.SplitJoin | plantagenet.py:458 | splitting a join of separator-free pieces gives back the pieces |
| Text.Decimal | plantagenet.py:272 | the retry counter's `str(i)` is a non-empty run of decimal digits without a leading zero |
| Text.DecimalRoundTrip | plantagenet.py:272 | reading the digits of `str(n)` back as a decimal number gives `n` |
| Text.DecimalInjective | plantagenet.py:272 | different retry counters render as different strings |
| Summary.IsPunct | plantagenet.py:247 | the marks `[.,?!]` stage 3 spaces |
| Summary.IsKept | plantagenet.py:246 | the characters stage 2 keeps: ASCII letters, digits and `,.?!` |
| Summary.TagAt | plantagenet.py:245 | the tag pattern matches at a position: a `<`, a character other than `>`, and a later `>` |
| Summary.StripMarkup | plantagenet.py:245 | stage 1 output is no longer than its input, uses only its characters, contains no tag the pattern would match, and keeps a first character that opens no tag |
| Summary.StripMarkupNoMarkup | plantagenet.py:245 | stage 1 leaves a text without tags unchanged |
| Summary.StripMarkupIdempotent | plantagenet.py:245 | applying stage 1 twice is the same as applying it once |
| Summary.StripMarkupKeepsPlain | plantagenet.py:245 | text containing no `<` passes through stage 1 unchanged, whatever follows it |
| Summary.StripMarkupDropsTag | plantagenet.py:245 | a tag `<x>` with non-empty `x` free of `>` at the front is removed, and the rest is processed on its own |
| Summary.StripMarkupKeepsEmptyBrackets | plantagenet.py:245 | `<>` is not a tag and survives stage 1 whatever follows, so `<><b>x` becomes `<>x` |
| Summary.Clean | plantagenet.py:246 | stage 2 keeps the length and replaces exactly the characters outside `a-zA-Z0-9,.?!` by spaces |
| Summary.Punctuate | plantagenet.py:247 | stage 3 adds only spaces, keeps a leading non-space character, and leaves every mark followed by one space and then no further whitespace |
| Summary.PunctuateKeepsText | plantagenet.py:247 | stage 3 keeps every non-whitespace character, in order: it only changes spacing |
| Summary.PunctuateNoMarks | plantagenet.py:247 | text without marks passes through stage 3 unchanged, trailing whitespace included |
| Summary.PunctuateKeepsPlain | plantagenet.py:247 | text with no mark that does not end in whitespace is copied unchanged, whatever follows it |
| Summary.PunctuateMark | plantagenet.py:247 | a mark with whitespace runs on either side becomes the mark and one space, and the scan goes on after the second run |
| Summary.Condense | plantagenet.py:248 | stage 4 output has no two adjacent whitespace characters, adds only spaces, and keeps the first character (a space for a whitespace one) |
| Summary.CondenseKeepsText | plantagenet.py:248 | stage 4 keeps every non-whitespace character, in order |
| Summary.CondenseRun | plantagenet.py:248 | a whitespace run between text not ending and text not starting with whitespace becomes exactly one space, and each side is condensed on its own |
| Summary.CondenseKeepsPunctSpacing | plantagenet.py:247-248 | stage 4 preserves the one-space-after-each-mark property stage 3 established |
| Summary.CondenseFixedPoint | plantagenet.py:248 | a text whose whitespace is isolated plain spaces is left unchanged by stage 4 |
| Summary.CondenseIdempotent | plantagenet.py:248 | applying stage 4 twice is the same as applying it once |
| Summary.Summarize | plantagenet.py:249-252 | the summary has at most 103 characters; it is the condensed text when that has at most 100, else its first 100 characters followed by `...` |
| Summary.Condensed | plantagenet.py:245-248 | the four substitutions applied in order to the content |
| Summary.CondensedKeepsText | plantagenet.py:245-248 | the condensed text has the same non-whitespace characters, in order, as the content after tag removal and character cleaning |
| Summary.CondensedShape | plantagenet.py:245-248 | the condensed text uses only ASCII letters, digits, `,.?!` and spaces, has no two spaces in a row, and every mark is followed by exactly one space |
| SummaryExamples.ClosingTagRemoved | plantagenet.py:245 | stage 1 removes `</b>` entirely |
| SummaryExamples.EmptyBracketsKept | plantagenet.py:245 | stage 1 keeps `<>`, which has nothing between its brackets |
| SummaryExamples.UnclosedTagKept | plantagenet.py:245 | stage 1 keeps a `<` that no `>` closes |
| SummaryExamples.BothTagsRemoved | plantagenet.py:245 | stage 1 turns `<b>Hi!</b>` into `Hi!` |
| SummaryExamples.LettersAndMarkClean | plantagenet.py:246 | stage 2 keeps `Hi!` as it is |
| SummaryExamples.MarkGetsSpace | plantagenet.py:247 | stage 3 turns `Hi!` into `Hi! ` |
| SummaryExamples.AlreadyCondensed | plantagenet.py:248 | stage 4 keeps `Hi! ` as it is |
| SummaryExamples.TrailingSpaceKept | plantagenet.py:244-252 | `summarize("<b>Hi!</b>")` is `Hi! `, with the trailing space, since nothing trims |
| Slugs.UniqueSlugDeterminate | plantagenet.py:267-274 | the description of the slug `get_unique_slug` returns (free, `slugify(title)` if that is free, else the first free retry) fixes it uniquely |
| Slugs.Candidate | plantagenet.py:272 | the text of the `i`-th retry, `title + " " + str(i)` |
| Slugs.Retry | plantagenet.py:272 | the slug of the `i`-th retry, `slugify` of the retry text |
| Slugs.CandidatesDistinct | plantagenet.py:272 | different retry numbers give different retry texts |
| Slugs.InjectiveRetriesDistinct | plantagenet.py:271-273 | if `slugify` maps different texts to different slugs, the retries never repeat a slug, so the loop stops |
| Slugs.IsUniqueSlug | plantagenet.py:267-274 | the slug `get_unique_slug` returns: not taken, `slugify(title)` if that is free, else the first free retry |
| Slugs.RetrySlugsSize | plantagenet.py:271-273 | when retries never repeat, the first `n` retries are `n` distinct slugs |
| Slugs.FreeRetryExists | plantagenet.py:271-273 | when retries never repeat, one of the first `|taken| + 1` retries is free, so the loop stops |
| Tags.NamesOf | plantagenet.py:456-459 | a name is kept exactly when it is the non-empty stripped form of one of the pieces |
| Tags.NamesWithoutSeparator | plantagenet.py:456-459 | names kept from separator-free pieces are non-empty, separator-free and have no whitespace at either end |
| Tags.ParseTagNames | plantagenet.py:456-459 | the parsed tag names are non-empty, contain no comma, are stripped, and are exactly the non-empty stripped pieces of `tags.split(',')` |
| Tags.FindTag | plantagenet.py:462 | `filter_by(name=name).first()`: the id of the first tag with that name, and nothing exactly when no tag has it |
| Tags.FindTagAppend | plantagenet.py:462-464 | appending a tag changes no lookup that already succeeded and makes the appended name found at the end when it was missing |
| Queries.FindBySlug | plantagenet.py:263-264 | `get_by_slug`: the first post with that slug, or none exactly when no post has it |
| Queries.TakenSlugs | plantagenet.py:269-271 | a slug is taken exactly when some stored post has it |
| Queries.SlugsUnique | plantagenet.py:221 | `unique=True` on the slug column: no two posts share a slug (posts without one, NULL in the database, are exempt) |
| Queries.IsAfter | plantagenet.py:409-412 | the next-post filter: visible to the viewer and dated strictly later (also plantagenet.py:417-420) |
| Queries.IsBefore | plantagenet.py:413-415 | the previous-post filter: visible to the viewer and dated strictly earlier (also plantagenet.py:421-424) |
| Queries.VisibleTo | plantagenet.py:368-369 | a post is visible when the viewer is signed in or it is not a draft (also plantagenet.py:405 and 417-424) |
| Queries.FindBySlugUnique | plantagenet.py:263-264 | with unique slugs, `get_by_slug` finds exactly the post that has the slug |
| Queries.NextPost | plantagenet.py:409-420 | the next post is visible to the viewer and dated strictly after the post, with no visible post dated between; none exactly when no visible post is later |
| Queries.PrevPost | plantagenet.py:413-424 | the previous post is visible to the viewer and dated strictly before the post, with no visible post dated between; none exactly when no visible post is earlier |
| Queries.GetPost | plantagenet.py:400-424 | not found exactly when no post has the slug; unauthorized exactly when it is a draft and the viewer is not signed in; otherwise the post with its next and previous posts |
| Queries.IdsWhere | plantagenet.py:368-369 | the filter keeps exactly the posts satisfying the condition, each once, in table order |
| Queries.InsertByDate | plantagenet.py:370 | inserting a post id into a date-sorted list adds exactly that id |
| Queries.InsertByDateSorted | plantagenet.py:370 | the insertion keeps the list sorted latest first |
| Queries.SortByDateDesc | plantagenet.py:370 | `order_by(Post.date.desc())`: the result is sorted latest first and a permutation of its input |
| Queries.VisibleIds | plantagenet.py:368-369 | the posts the viewer may see: all of them when signed in, the non-drafts otherwise |
| Queries.Index | plantagenet.py:366-373 | the index lists exactly the posts the viewer may see, each once, latest first |
| Queries.TaggedPosts | plantagenet.py:526-528 | the tag page lists exactly the posts carrying the tag that the viewer may see, in table order |
| Queries.GetTagAsWritten | plantagenet.py:524-530 | `get_tag` as written: a missing tag id ends in a server error, otherwise the tag's visible posts |
| Queries.MissingTagIsServerError | plantagenet.py:524-526 | a missing tag id gives a server error as written, where the corrected handler answers not found |
| Queries.GetTag | plantagenet.py:524-530 | corrected `get_tag`: an error exactly when no tag has the id, and that error is not found; otherwise the visible posts carrying the tag |
| Content.GetUniqueSlug | plantagenet.py:267-274 | the slug loop returns a slug no stored post has: `slugify(title)` if free, otherwise the first free retry |
| Content.SlugUnset | plantagenet.py:283 | `not self.slug`: the slug is missing or empty |
| Content.ContentText | plantagenet.py:256-257 | the content setter stores `None` as the empty string |
| Content.TitleAccepted | plantagenet.py:441 | a stripped title is accepted when it is non-empty and its slug is not blank once stripped (the same test at plantagenet.py:489) |
| Content.Post.constructor | plantagenet.py:231-237 | a new post has the title and content given (`None` content as empty text), the summary of that content, the last-updated date equal to the date, no tags, and a unique slug exactly when the title is non-empty |
| Content.Post.SetContent | plantagenet.py:254-260 | the content setter stores `None` as empty text and recomputes the summary from it; nothing else changes |
| Content.Post.SetTitle | plantagenet.py:280-284 | the title setter gives a post without a slug a unique one when the title is non-empty, and otherwise leaves the slug as it was |
| Content.Post.RemoveTags | plantagenet.py:469-470 | the removal loop takes exactly the given tags off the post |
| Content.Post.ExtendTags | plantagenet.py:471 | `extend` adds exactly the given tags |
| Content.Post.Reslug | plantagenet.py:554 | the post's slug becomes the unique slug for its title; no other field changes |
| Content.Post.Edit | plantagenet.py:449-471 | after an edit's assignments, title, content, summary, notes, draft flag and last-updated date are the new ones, the date is kept, the slug is set only for a post without one, and the tags are exactly the resolved set |
| Content.Resolved | plantagenet.py:461-465 | every resolved id is a tag in the table carrying one of the names |
| Content.TagsAddedKeepsLookups | plantagenet.py:461-465 | growing the tag table only by new names keeps every lookup that already succeeded, so existing tags are reused |
| Content.AppendLookups | plantagenet.py:462-464 | appending a new name makes it found at the end and changes no other name's lookup |
| Content.ResolveFound | plantagenet.py:461-465 | a name that is already a tag resolves to its first tag and adds nothing to the table |
| Content.ResolveAppended | plantagenet.py:461-465 | a name that is not yet a tag resolves to a new tag appended to the table |
| Content.ResolvedAppend | plantagenet.py:461-465 | resolving one more name, just appended, adds exactly its new id |
| Content.ResolveTags | plantagenet.py:460-465 | the lookup loop resolves each name to its first tag, appending a tag only for names not yet in the table, and yields exactly the resolved ids |
| Content.SlugsUniqueAppend | plantagenet.py:512-513 | storing a post whose slug is not taken keeps slugs unique |
| Content.TagsExistAppend | plantagenet.py:509-513 | storing a post whose tags are in the grown tag table keeps every post's tags in the table |
| Content.SlugsUniqueUpdate | plantagenet.py:554-556 | giving one post a slug no post has keeps slugs unique |
| Content.Blog.constructor | plantagenet.py:539-540 | the empty tables satisfy the invariants |
| Content.Blog.Store | plantagenet.py:512-513 | storing a new post appends it and its row, installs the grown tag table, and keeps the invariants |
| Content.Blog.AddPost | plantagenet.py:497-513 | the new post has the stripped title, content, summary, notes, draft flag, both dates `now`, the unique slug for the title, and exactly the resolved tags; it is appended and the invariants hold |
| Content.Blog.CreatePost | plantagenet.py:480-514 | create fails with unauthorized when not signed in and with bad request for a rejected title, changing nothing; otherwise it stores one new post as above, with tags resolved by name |
| Content.Blog.Revise | plantagenet.py:449-476 | an edit changes only the one post's row and keeps slugs unique and tags valid |
| Content.Blog.EditPost | plantagenet.py:430-477 | edit answers unauthorized, then not found, then bad request for a rejected title, changing nothing; otherwise it revises exactly the post found by the slug, resolving the tag names and growing the tag table only by new names |
| Content.Blog.ResetSlug | plantagenet.py:547-557 | a missing post is not found; otherwise the post gets the unique slug for its title, which differs from its old slug, and nothing else changes |
| Content.Blog.ResetSummary | plantagenet.py:613-624 | the summary is recomputed from the unchanged content; the query rows are unchanged; a missing post is reported |
| OptionStore.OptionTable.Get | plantagenet.py:306-310 | the stored value when a record has the name, the default otherwise |
| OptionStore.OptionTable.SetOption | plantagenet.py:625-637 | the record is created or overwritten, reading it gives the new value, and no other name changes |
| OptionStore.OptionTable.ClearOption | plantagenet.py:638-647 | an absent name fails with no change; otherwise the record is deleted, reading it gives the default, and no other name changes |

## Left out

- Flask routing, templates, `flash`/`redirect`, the GET forms of edit and create, and the pagination of the index: web plumbing. `Queries.Index` returns the whole ordered list.
- SQLAlchemy sessions, commits and lazy relationships: the tables are in-memory sequences. Transactional atomicity is the database's concern.
- Login, bcrypt and the `User` object: whether the viewer is signed in is a boolean. `@login_required` without a login view answers unauthorized, which is what `CreatePost` and `EditPost` return.
- `slugify` internals: `slugify` is an uninterpreted parameter. Nothing is claimed about its output beyond the retry assumption below.
- Markdown rendering, configuration, argparse, the database URI, the secret key, and the console output of the commands: I/O and startup.
- `datetime.now()` and dateutil parsing: timestamps are integers the caller supplies. The `--set-date` and `--set-last-updated-date` commands, which only parse a date and assign it, are not modelled.
- `Options.seq`/`cycle` and the `get_sitename`-style wrappers: template conveniences over `Options.get`.
- An option value stored as NULL: option values are strings.
- The column width limits (`String(100)` and so on): they are database constraints.
- The retry loop of `get_unique_slug` need not stop in the source. Its callers assume the retries `slugify(title + " " + i)` never repeat a slug, which is what makes the loop stop. `Slugs.InjectiveRetriesDistinct` shows that an injective `slugify` meets this assumption.
- Content.Post.Edit: a post's tags are a set of tag ids, not SQLAlchemy's list. The removal and extension are exact set operations; duplicate entries are not represented.
- Queries.NextPost: when several posts share the nearest date, the query does not order them. The model picks the first in table order; `Queries.PrevPost` does the same.
- Queries.TaggedPosts: `tag.posts` has no `order_by`; the model lists the tag's posts in table order.
- Queries.FindBySlug: the source gives `Post.query.get(post_id)` and `filter_by(...).first()` no ORDER BY; they are modelled as the first row in table order, with a post's id being its position. Database id allocation is not modelled.
- Content.ResolveTags: a new tag enters the tag table as soon as it is created, where the source adds it to the session after the loop. The names are distinct, so no lookup in the loop can see the difference.
- Content.Blog.ResetSummary: it reports a missing post as `false`, where the command prints a message and exits with status 1.

## Findings

| source | as written | input that shows it | evidently intended | confidence | as-written member | corrected member |
|---|---|---|---|---|---|---|
| plantagenet.py:524-526 | `get_tag` reads `tag.posts` without checking that `Tag.query.get(tag_id)` found a tag | a request for `/tags/<id>` where no tag has the id: `tag` is `None` and `tag.posts` raises, giving a server error | answer not found, as `get_post` does for a missing slug | not executed | Queries.MissingTagIsServerError | Queries.GetTag |
