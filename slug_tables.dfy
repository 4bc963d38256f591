/** Tables whose rows carry a slug derived from their title and key (blog posts and forum
    queries). Both create and update store generateSlug(Title, Id), so every stored slug is the
    slug of its own row; since keys are unique, so are the slugs. */
module SlugTables {
  import opened Tables
  import opened Slugs

  /** Every row's slug is generateSlug(title, key) of that row. */
  ghost predicate SlugsDerived<T>(rows: seq<T>, title: T -> string, key: T -> int, slug: T -> string) {
    forall i :: 0 <= i < |rows| ==> slug(rows[i]) == Slug(title(rows[i]), key(rows[i]))
  }

  /** Keys handed out by the identity column are not negative. */
  ghost predicate KeysNatural<T>(rows: seq<T>, key: T -> int) {
    forall i :: 0 <= i < |rows| ==> key(rows[i]) >= 0
  }

  /** Derived slugs over distinct keys are distinct: a slug names one row. */
  lemma DerivedSlugsUnique<T>(rows: seq<T>, title: T -> string, key: T -> int, slug: T -> string)
    requires SlugsDerived(rows, title, key, slug) && UniqueKeys(rows, key) && KeysNatural(rows, key)
    ensures UniqueKeys(rows, slug)
  {
    forall i, j | 0 <= i < j < |rows| ensures slug(rows[i]) != slug(rows[j]) {
      DistinctIdsDistinctSlugs(title(rows[i]), key(rows[i]), title(rows[j]), key(rows[j]));
    }
  }

  /** Inserting a row under a fresh key with its derived slug keeps keys unique and slugs derived. */
  lemma InsertKeepsSlugs<T>(rows: seq<T>, x: T, title: T -> string, key: T -> int, slug: T -> string)
    requires SlugsDerived(rows, title, key, slug) && UniqueKeys(rows, key) && KeysNatural(rows, key)
    requires forall i :: 0 <= i < |rows| ==> key(rows[i]) != key(x)
    requires key(x) >= 0 && slug(x) == Slug(title(x), key(x))
    ensures SlugsDerived(rows + [x], title, key, slug) && UniqueKeys(rows + [x], key) && KeysNatural(rows + [x], key)
    ensures UniqueKeys(rows + [x], slug)
  {
    var r := rows + [x];
    forall i | 0 <= i < |r|
      ensures slug(r[i]) == Slug(title(r[i]), key(r[i])) && key(r[i]) >= 0
    {
      if i < |rows| {
        assert r[i] == rows[i];
      }
    }
    UniqueAfterAppend(rows, key, x);
    DerivedSlugsUnique(r, title, key, slug);
  }

  /** Overwriting the row at position k with a row under the same key and its derived slug keeps
      keys unique and slugs derived. */
  lemma ReplaceKeepsSlugs<T>(rows: seq<T>, k: int, x: T, title: T -> string, key: T -> int, slug: T -> string)
    requires SlugsDerived(rows, title, key, slug) && UniqueKeys(rows, key) && KeysNatural(rows, key)
    requires 0 <= k < |rows| && key(x) == key(rows[k]) && slug(x) == Slug(title(x), key(x))
    ensures SlugsDerived(rows[k := x], title, key, slug) && UniqueKeys(rows[k := x], key)
    ensures KeysNatural(rows[k := x], key)
    ensures UniqueKeys(rows[k := x], slug)
  {
    DerivedSlugsUnique(rows[k := x], title, key, slug);
  }
}
