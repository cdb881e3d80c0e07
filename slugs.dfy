/**
 * Slug allocation (`Post.get_unique_slug`). `slugify` is an outside library
 * and appears here only as a parameter: nothing is assumed about its output
 * except, wherever `get_unique_slug` is called, that its retries never
 * repeat a slug.
 * A title's slug is `slugify(title)` when no stored post has it; otherwise it
 * is the first of the retries `slugify(title + " " + str(i))`, i = 1, 2, ...,
 * that no stored post has.
 */
module Slugs {
  import opened Text

  /** The text slugified on the `i`-th retry: `'{} {}'.format(title, i)`. */
  function Candidate(title: string, i: nat): string {
    title + " " + Decimal(i)
  }

  /** Different retry numbers give different texts, since `str` is injective. */
  lemma CandidatesDistinct(title: string, i: nat, j: nat)
    requires i != j
    ensures Candidate(title, i) != Candidate(title, j)
  {
    if Candidate(title, i) == Candidate(title, j) {
      var n := |title| + 1;
      assert Candidate(title, i)[n..] == Decimal(i);
      assert Candidate(title, j)[n..] == Decimal(j);
      DecimalInjective(i, j);
    }
  }

  function Retry(slugify: string -> string, title: string, i: nat): string {
    slugify(Candidate(title, i))
  }

  /** The retries for `title` never repeat a slug. */
  ghost predicate RetriesDistinct(slugify: string -> string, title: string) {
    forall i: nat, j: nat :: 1 <= i < j ==> Retry(slugify, title, i) != Retry(slugify, title, j)
  }

  /** A `slugify` that maps different texts to different slugs never repeats a retry. */
  lemma InjectiveRetriesDistinct(slugify: string -> string, title: string)
    requires forall x, y :: slugify(x) == slugify(y) ==> x == y
    ensures RetriesDistinct(slugify, title)
  {
    forall i: nat, j: nat | 1 <= i < j
      ensures Retry(slugify, title, i) != Retry(slugify, title, j)
    {
      CandidatesDistinct(title, i, j);
    }
  }

  /** Some retry for `title` is a slug outside `taken`: the retry loop then stops. */
  ghost predicate SomeRetryFree(taken: set<string>, slugify: string -> string, title: string) {
    exists k: nat :: k >= 1 && Retry(slugify, title, k) !in taken
  }

  /** Every retry before the `k`-th is a slug in `taken`. */
  ghost predicate RetriesTaken(taken: set<string>, slugify: string -> string, title: string, k: nat) {
    forall j: nat :: 1 <= j < k ==> Retry(slugify, title, j) in taken
  }

  /** One more retry found in use extends the run of used retries. */
  lemma RetriesTakenStep(taken: set<string>, slugify: string -> string, title: string, k: nat)
    requires k >= 1 && RetriesTaken(taken, slugify, title, k) && Retry(slugify, title, k) in taken
    ensures RetriesTaken(taken, slugify, title, k + 1)
  {
  }

  /** `slug` is what `get_unique_slug(title)` returns while the slugs in `taken` are in use. */
  ghost predicate IsUniqueSlug(taken: set<string>, slugify: string -> string, title: string, slug: string) {
    && slug !in taken
    && (slugify(title) !in taken ==> slug == slugify(title))
    && (slugify(title) in taken ==>
          exists k: nat :: k >= 1 && slug == Retry(slugify, title, k) && RetriesTaken(taken, slugify, title, k))
  }

  /** The description above fixes the slug: it is the first free choice. */
  lemma UniqueSlugDeterminate(taken: set<string>, slugify: string -> string, title: string, a: string, b: string)
    requires IsUniqueSlug(taken, slugify, title, a)
    requires IsUniqueSlug(taken, slugify, title, b)
    ensures a == b
  {
    if slugify(title) in taken {
      var ka: nat :| ka >= 1 && a == Retry(slugify, title, ka)
                  && forall j: nat :: 1 <= j < ka ==> Retry(slugify, title, j) in taken;
      var kb: nat :| kb >= 1 && b == Retry(slugify, title, kb)
                  && forall j: nat :: 1 <= j < kb ==> Retry(slugify, title, j) in taken;
      // an earlier free retry would contradict the other's minimality
      assert !(ka < kb);
      assert !(kb < ka);
    }
  }

  /** The slugs of the first `n` retries. */
  function RetrySlugs(slugify: string -> string, title: string, n: nat): set<string> {
    set k: nat | 1 <= k <= n :: Retry(slugify, title, k)
  }

  lemma {:induction false} RetrySlugsSize(slugify: string -> string, title: string, n: nat)
    requires RetriesDistinct(slugify, title)
    ensures |RetrySlugs(slugify, title, n)| == n
  {
    if n > 0 {
      RetrySlugsSize(slugify, title, n - 1);
      var prev := RetrySlugs(slugify, title, n - 1);
      assert RetrySlugs(slugify, title, n) == prev + {Retry(slugify, title, n)};
      assert Retry(slugify, title, n) !in prev;
    } else {
      assert RetrySlugs(slugify, title, n) == {};
    }
  }

  /**
   * When the retries never repeat a slug, one of the first `|taken| + 1` of
   * them is free, so the retry loop stops.
   */
  lemma FreeRetryExists(taken: set<string>, slugify: string -> string, title: string)
    requires RetriesDistinct(slugify, title)
    ensures exists k: nat :: 1 <= k <= |taken| + 1 && Retry(slugify, title, k) !in taken
  {
    var n := |taken| + 1;
    if forall k: nat :: 1 <= k <= n ==> Retry(slugify, title, k) in taken {
      var retries := RetrySlugs(slugify, title, n);
      RetrySlugsSize(slugify, title, n);
      assert retries <= taken;
      SubsetSize(retries, taken);
      assert false;
    }
  }

  lemma SubsetSize<T>(a: set<T>, b: set<T>)
    requires a <= b
    ensures |a| <= |b|
  {
    assert b == a + (b - a);
  }
}
