/**
 * A news item and the rules an item must satisfy before it is stored
 * (internal/data/news.go, News and ValidateNews).
 */
module NewsRecord {
  import opened Wrappers
  import opened Text
  import opened Validation

  /** A point on a clock, in nanoseconds. The store takes the database clock's reading as a parameter. */
  type Time = int

  /**
   * News: one row of the news table. `imageUrl` is the `*string` field of the
   * source; a nil and an empty categories slice are the same empty sequence.
   */
  datatype News = News(
    id: int,
    createdAt: Time,
    updatedAt: Time,
    title: string,
    content: string,
    categories: seq<string>,
    status: string,
    imageUrl: Option<string>,
    version: int)

  const MAX_TITLE_BYTES: int := 500
  const MAX_CATEGORIES: int := 10
  const MAX_IMAGE_URL_BYTES: int := 1000
  const STATUSES: seq<string> := ["DRAFT", "PUBLISHED", "ARCHIVED"]

  /** The messages ValidateNews records. */
  const MSG_REQUIRED: string := "must be provided"
  const MSG_TITLE_TOO_LONG: string := "must not be more than 500 bytes long"
  const MSG_TOO_FEW_CATEGORIES: string := "must contain at least 1 categories"
  const MSG_TOO_MANY_CATEGORIES: string := "must not contain more than 10 categories"
  const MSG_DUPLICATE_CATEGORIES: string := "must not contain duplicate values"
  const MSG_INVALID_STATUS: string := "must be a valid status"
  const MSG_IMAGE_URL_TOO_LONG: string := "must not be more than 1000 bytes long"

  /** What ValidateNews accepts, stated field by field. */
  predicate NewsValid(n: News) {
    && n.title != "" && Utf8Len(n.title) <= MAX_TITLE_BYTES
    && n.content != ""
    && 1 <= |n.categories| <= MAX_CATEGORIES && NoDuplicates(n.categories)
    && n.status in STATUSES
    && (n.imageUrl.Some? ==> Utf8Len(n.imageUrl.value) <= MAX_IMAGE_URL_BYTES)
  }

  /** The checks ValidateNews makes, in order; the image URL is checked only when present. */
  function NewsChecks(n: News): seq<Rule> {
    FieldChecks(n) + ImageChecks(n.imageUrl)
  }

  /** The checks on the fields that are always present. */
  function FieldChecks(n: News): seq<Rule> {
    [ Rule(n.title != "", "title", MSG_REQUIRED),
      Rule(Utf8Len(n.title) <= MAX_TITLE_BYTES, "title", MSG_TITLE_TOO_LONG),
      Rule(n.content != "", "content", MSG_REQUIRED),
      Rule(|n.categories| >= 1, "categories", MSG_TOO_FEW_CATEGORIES),
      Rule(|n.categories| <= MAX_CATEGORIES, "categories", MSG_TOO_MANY_CATEGORIES),
      Rule(Unique(n.categories), "categories", MSG_DUPLICATE_CATEGORIES),
      Rule(n.status != "", "status", MSG_REQUIRED),
      Rule(PermittedValue(n.status, STATUSES), "status", MSG_INVALID_STATUS) ]
  }

  /** The field checks, applied one at a time in the order ValidateNews makes them. */
  lemma FieldChecksInOrder(errors: map<string, string>, n: News)
    ensures RecordAll(errors, FieldChecks(n)) ==
      Record(Record(Record(Record(Record(Record(Record(Record(errors,
        Rule(n.title != "", "title", MSG_REQUIRED)),
        Rule(Utf8Len(n.title) <= MAX_TITLE_BYTES, "title", MSG_TITLE_TOO_LONG)),
        Rule(n.content != "", "content", MSG_REQUIRED)),
        Rule(|n.categories| >= 1, "categories", MSG_TOO_FEW_CATEGORIES)),
        Rule(|n.categories| <= MAX_CATEGORIES, "categories", MSG_TOO_MANY_CATEGORIES)),
        Rule(Unique(n.categories), "categories", MSG_DUPLICATE_CATEGORIES)),
        Rule(n.status != "", "status", MSG_REQUIRED)),
        Rule(PermittedValue(n.status, STATUSES), "status", MSG_INVALID_STATUS))
  {
    var cs := FieldChecks(n);
    RecordAllStep(errors, cs, 8);
    RecordAllStep(errors, cs, 7);
    RecordAllStep(errors, cs, 6);
    RecordAllStep(errors, cs, 5);
    RecordAllStep(errors, cs, 4);
    RecordAllStep(errors, cs, 3);
    RecordAllStep(errors, cs, 2);
    RecordAllStep(errors, cs, 1);
    assert cs[..8] == cs;
    assert cs[..0] == [];
  }

  /** The check on the optional image URL. */
  function ImageChecks(imageUrl: Option<string>): seq<Rule> {
    if imageUrl.Some? then
      [Rule(Utf8Len(imageUrl.value) <= MAX_IMAGE_URL_BYTES, "image_url", MSG_IMAGE_URL_TOO_LONG)]
    else []
  }

  /** The image check applied to an error map. */
  lemma ImageChecksApplied(errors: map<string, string>, imageUrl: Option<string>)
    ensures RecordAll(errors, ImageChecks(imageUrl)) ==
      if imageUrl.Some? then Record(errors, Rule(Utf8Len(imageUrl.value) <= MAX_IMAGE_URL_BYTES, "image_url", MSG_IMAGE_URL_TOO_LONG))
      else errors
  {
    if imageUrl.Some? {
      assert ImageChecks(imageUrl)[..0] == [];
    }
  }

  /** The news checks all pass exactly when the item is valid. */
  lemma NewsChecksPass(n: News)
    ensures FailedKeys(NewsChecks(n)) == {} <==> NewsValid(n)
  {
    NoFailedKeysIffAllPass(NewsChecks(n));
    UniqueIffNoDuplicates(n.categories);
    ValidPassesChecks(n);
    PassingChecksValid(n);
  }

  lemma ValidPassesChecks(n: News)
    requires Unique(n.categories) <==> NoDuplicates(n.categories)
    ensures NewsValid(n) ==> AllPass(NewsChecks(n))
  {
    var fs, ims := FieldChecks(n), ImageChecks(n.imageUrl);
    if NewsValid(n) {
      forall i | 0 <= i < |fs| ensures fs[i].ok {
        if i < 4 {
          assert i == 0 || i == 1 || i == 2 || i == 3;
        } else {
          assert i == 4 || i == 5 || i == 6 || i == 7;
        }
      }
      assert AllPass(ims);
      assert forall i :: 0 <= i < |fs + ims| ==> (fs + ims)[i] == if i < |fs| then fs[i] else ims[i - |fs|];
    }
  }

  lemma PassingChecksValid(n: News)
    requires Unique(n.categories) <==> NoDuplicates(n.categories)
    ensures AllPass(NewsChecks(n)) ==> NewsValid(n)
  {
    var cs := NewsChecks(n);
    if AllPass(cs) {
      assert cs[0].ok && cs[1].ok && cs[2].ok && cs[3].ok && cs[4].ok && cs[5].ok && cs[7].ok;
      if n.imageUrl.Some? {
        assert cs[8].ok;
      }
    }
  }

  /** The error keys ValidateNews can report. */
  lemma NewsErrorKeys(n: News)
    ensures FailedKeys(NewsChecks(n)) <= {"title", "content", "categories", "status", "image_url"}
  {
  }

  /** Running the news checks adds exactly the failing keys, and leaves no error exactly for a valid item on a clean map. */
  lemma NewsValidationOutcome(errors: map<string, string>, n: News)
    ensures RecordAll(errors, NewsChecks(n)).Keys == errors.Keys + FailedKeys(NewsChecks(n))
    ensures RecordAll(errors, NewsChecks(n)) == map[] <==> errors == map[] && NewsValid(n)
  {
    RecordAllKeys(errors, NewsChecks(n));
    RecordAllEmpty(errors, NewsChecks(n));
    NewsChecksPass(n);
  }

  /**
   * ValidateNews: makes the news checks on the validator in order, so that it
   * ends holding RecordAll of its old errors and NewsChecks(n);
   * NewsValidationOutcome says what that map holds.
   */
  method ValidateNews(v: Validator, n: News)
    modifies v
    ensures v.errors == RecordAll(old(v.errors), NewsChecks(n))
  {
    ghost var e0 := v.errors;
    v.Check(n.title != "", "title", MSG_REQUIRED);
    v.Check(Utf8Len(n.title) <= MAX_TITLE_BYTES, "title", MSG_TITLE_TOO_LONG);
    v.Check(n.content != "", "content", MSG_REQUIRED);
    v.Check(|n.categories| >= 1, "categories", MSG_TOO_FEW_CATEGORIES);
    v.Check(|n.categories| <= MAX_CATEGORIES, "categories", MSG_TOO_MANY_CATEGORIES);
    v.Check(Unique(n.categories), "categories", MSG_DUPLICATE_CATEGORIES);
    v.Check(n.status != "", "status", MSG_REQUIRED);
    v.Check(PermittedValue(n.status, STATUSES), "status", MSG_INVALID_STATUS);
    FieldChecksInOrder(e0, n);
    ghost var e8 := v.errors;
    if n.imageUrl.Some? {
      v.Check(Utf8Len(n.imageUrl.value) <= MAX_IMAGE_URL_BYTES, "image_url", MSG_IMAGE_URL_TOO_LONG);
    }
    ImageChecksApplied(e8, n.imageUrl);
    RecordAllAppend(e0, FieldChecks(n), ImageChecks(n.imageUrl));
  }
}
