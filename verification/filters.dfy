/** documents/filters.py: `DocumentFilter`, applied to the documents a user
    owns, held in a sequence in queryset order. */
module Filters {
  import opened Wrappers
  import opened PyStr
  import opened Query
  import opened Models

  // ------------------------------------------------------------------ q

  /** `Q(title__icontains=q) | Q(original_filename__icontains=q) |
      Q(content_text__icontains=q)`. */
  predicate MatchesQ(q: string, d: Document) {
    var needle := Lower(q);
    Contains(Lower(d.title), needle) || Contains(Lower(d.originalFilename), needle)
    || Contains(Lower(d.contentText), needle)
  }

  /** `filter_q`: an empty q leaves the queryset as it is; any other q keeps
      exactly the documents whose title, original filename or text contains
      it, ignoring case, in their order. */
  function FilterQ(docs: seq<Document>, q: string): (r: seq<Document>)
    ensures q == "" ==> r == docs
    ensures q != "" ==> forall d :: d in r <==> d in docs && MatchesQ(q, d)
    ensures IsSubsequence(r, docs)
  {
    if q == "" then
      SubsequenceReflexive(docs);
      docs
    else
      SelectIsSubsequence(docs, d => MatchesQ(q, d));
      Select(docs, d => MatchesQ(q, d))
  }

  lemma LowerIdempotent(s: string)
    ensures Lower(Lower(s)) == Lower(s)
  {
  }

  /** The search term's own case does not matter. */
  lemma QIgnoresCase(q: string, d: Document)
    ensures MatchesQ(q, d) == MatchesQ(Lower(q), d)
  {
    LowerIdempotent(q);
  }

  // ---------------------------------------------------------------- tag

  /** The tags linked to `d` whose name is among `values`. */
  function MatchingTags(d: Document, tags: map<TagId, Tag>, values: seq<string>): set<TagId> {
    set t | t in d.tags && t in tags && tags[t].name in values
  }

  /** `tags__name__in=values` holds of `d`. */
  predicate HasTagIn(d: Document, tags: map<TagId, Tag>, values: seq<string>) {
    MatchingTags(d, tags, values) != {}
  }

  function Repeat<T>(x: T, n: nat): (r: seq<T>)
    ensures |r| == n && forall k :: 0 <= k < n ==> r[k] == x
  {
    seq(n, _ => x)
  }

  lemma RepeatMembers(x: Document, n: nat)
    ensures forall y :: y in Repeat(x, n) <==> n > 0 && y == x
  {
    if n > 0 {
      assert Repeat(x, n)[0] == x;
    }
  }

  /** The rows of the join behind `tags__name__in`: each document once per
      linked tag whose name is among `values`, in queryset order. */
  function TagJoin(docs: seq<Document>, tags: map<TagId, Tag>, values: seq<string>): (r: seq<Document>)
    ensures forall d :: d in r <==> d in docs && HasTagIn(d, tags, values)
  {
    if docs == [] then []
    else
      var d := docs[0];
      var k := |MatchingTags(d, tags, values)|;
      var rest := TagJoin(docs[1..], tags, values);
      RepeatMembers(d, k);
      Repeat(d, k) + rest
  }

  /** `filter_tag`: with no tag values the queryset is left as it is;
      otherwise `.filter(tags__name__in=values).distinct()` keeps each
      document with at least one tag named among the values, once. */
  function FilterTag(docs: seq<Document>, tags: map<TagId, Tag>, values: seq<string>): (r: seq<Document>)
    ensures values == [] ==> r == docs
    ensures values != [] ==> NoDuplicates(r)
    ensures values != [] ==> forall d :: d in r <==> d in docs && HasTagIn(d, tags, values)
  {
    if values == [] then docs else Distinct(TagJoin(docs, tags, values))
  }

  /** `.distinct()` over a run of copies of one row followed by more rows. */
  lemma {:induction false} DistinctFromRepeat(d: Document, k: nat, t: seq<Document>, seen: set<Document>)
    ensures DistinctFrom(Repeat(d, k) + t, seen)
            == (if k > 0 && d !in seen then [d] else [])
               + DistinctFrom(t, if k > 0 then seen + {d} else seen)
    decreases k
  {
    if k == 0 {
      assert Repeat(d, k) + t == t;
    } else {
      var s := Repeat(d, k) + t;
      assert s[0] == d;
      assert s[1..] == Repeat(d, k - 1) + t;
      if d in seen {
        DistinctFromRepeat(d, k - 1, t, seen);
        assert seen + {d} == seen;
      } else {
        DistinctFromRepeat(d, k - 1, t, seen + {d});
        assert seen + {d} + {d} == seen + {d};
      }
    }
  }

  /** Removing the repeats of the join leaves the tagged documents not yet
      seen, each once, in queryset order. */
  lemma {:induction false} DistinctTagJoin(docs: seq<Document>, tags: map<TagId, Tag>, values: seq<string>,
                                           seen: set<Document>)
    requires NoDuplicates(docs)
    ensures DistinctFrom(TagJoin(docs, tags, values), seen)
            == Select(docs, d => HasTagIn(d, tags, values) && d !in seen)
  {
    if docs != [] {
      var d := docs[0];
      var rest := docs[1..];
      var k := |MatchingTags(d, tags, values)|;
      assert NoDuplicates(rest) by {
        forall i, j | 0 <= i < j < |rest| ensures rest[i] != rest[j] {
          assert rest[i] == docs[i + 1] && rest[j] == docs[j + 1];
        }
      }
      assert d !in rest by {
        forall i | 0 <= i < |rest| ensures rest[i] != d {
          assert rest[i] == docs[i + 1];
        }
      }
      DistinctFromRepeat(d, k, TagJoin(rest, tags, values), seen);
      var seen' := if k > 0 then seen + {d} else seen;
      DistinctTagJoin(rest, tags, values, seen');
      SelectCongruent(rest, x => HasTagIn(x, tags, values) && x !in seen',
                            x => HasTagIn(x, tags, values) && x !in seen);
      assert k > 0 <==> HasTagIn(d, tags, values);
    }
  }

  /** On rows without repeats the tag filter is a plain filter by
      `HasTagIn`: it keeps queryset order and drops no tagged document. */
  lemma TagFilterIsSelect(docs: seq<Document>, tags: map<TagId, Tag>, values: seq<string>)
    requires NoDuplicates(docs) && values != []
    ensures FilterTag(docs, tags, values) == Select(docs, d => HasTagIn(d, tags, values))
    ensures IsSubsequence(FilterTag(docs, tags, values), docs)
  {
    var none: set<Document> := {};
    DistinctTagJoin(docs, tags, values, none);
    SelectCongruent(docs, d => HasTagIn(d, tags, values) && d !in none,
                          d => HasTagIn(d, tags, values));
    SelectIsSubsequence(docs, d => HasTagIn(d, tags, values));
  }

  // -------------------------------------------------------- all filters

  /** The query parameters `DocumentFilter` reads, as the request gives
      them: `q` ("" when absent), every `tag` value in order, and the
      optional `folder`, `processed`, `created_after` and `created_before` (a
      date given as the tick of its midnight). The filter form's `CharField`
      strips `q` and the last `tag` value before deciding whether the filter
      applies; `filter_tag` itself reads the raw `tag` values again. */
  datatype FilterParams = FilterParams(
    q: string,
    tag: seq<string>,
    folder: Option<FolderId>,
    processed: Option<bool>,
    createdAfter: Option<Tick>,
    createdBefore: Option<Tick>)

  /** django-filter calls `filter_tag` only when the form value of `tag`,
      the last value given with the whitespace at its ends stripped, is not
      empty. */
  predicate TagActive(values: seq<string>) {
    values != [] && Strip(values[|values| - 1]) != ""
  }

  /** `filter_q` receives `q` stripped. */
  function QValue(p: FilterParams): string {
    Strip(p.q)
  }

  predicate QOk(p: FilterParams, d: Document) {
    QValue(p) == "" || MatchesQ(QValue(p), d)
  }

  /** Values that are only whitespace switch their filter off: the tag
      filter applies exactly when the last `tag` value has some other
      character, and a blank `q` keeps every document. */
  lemma BlankValuesAreIgnored(p: FilterParams, tags: map<TagId, Tag>, d: Document)
    ensures TagActive(p.tag) <==> p.tag != [] && !AllSpace(p.tag[|p.tag| - 1])
    ensures AllSpace(p.q) ==> QOk(p, d)
    ensures !AllSpace(p.q) ==> (QOk(p, d) <==> MatchesQ(Strip(p.q), d))
  {
    StripEmptyIffBlank(p.q);
    if p.tag != [] {
      StripEmptyIffBlank(p.tag[|p.tag| - 1]);
    }
  }

  predicate TagOk(p: FilterParams, tags: map<TagId, Tag>, d: Document) {
    !TagActive(p.tag) || HasTagIn(d, tags, p.tag)
  }

  /** `folder_id = folder`. */
  predicate FolderOk(p: FilterParams, d: Document) {
    p.folder.None? || d.folder == p.folder
  }

  /** `is_processed = processed`. */
  predicate ProcessedOk(p: FilterParams, d: Document) {
    p.processed.None? || d.isProcessed == p.processed.value
  }

  /** `created_at__gte = created_after`. */
  predicate AfterOk(p: FilterParams, d: Document) {
    p.createdAfter.None? || d.createdAt >= p.createdAfter.value
  }

  /** `created_at__lte = created_before`. */
  predicate BeforeOk(p: FilterParams, d: Document) {
    p.createdBefore.None? || d.createdAt <= p.createdBefore.value
  }

  /** Every filter whose parameter is given accepts `d`. */
  predicate Accepts(p: FilterParams, tags: map<TagId, Tag>, d: Document) {
    QOk(p, d) && TagOk(p, tags, d) && FolderOk(p, d) && ProcessedOk(p, d) && AfterOk(p, d) && BeforeOk(p, d)
  }

  /** `DocumentFilter(params, queryset).qs`: the filters in their declared
      order, each applied only when its parameter is given. */
  function ApplyFilters(docs: seq<Document>, tags: map<TagId, Tag>, p: FilterParams): seq<Document> {
    var s1 := FilterQ(docs, QValue(p));
    var s2 := if TagActive(p.tag) then FilterTag(s1, tags, p.tag) else s1;
    var s3 := if p.folder.Some? then Select(s2, d => FolderOk(p, d)) else s2;
    var s4 := if p.processed.Some? then Select(s3, d => ProcessedOk(p, d)) else s3;
    var s5 := if p.createdAfter.Some? then Select(s4, d => AfterOk(p, d)) else s4;
    if p.createdBefore.Some? then Select(s5, d => BeforeOk(p, d)) else s5
  }

  /** `q` and `tag` together keep the documents both accept. */
  lemma SearchStages(docs: seq<Document>, tags: map<TagId, Tag>, p: FilterParams)
    requires NoDuplicates(docs)
    ensures var s1 := FilterQ(docs, QValue(p));
            (if TagActive(p.tag) then FilterTag(s1, tags, p.tag) else s1)
            == Select(docs, d => QOk(p, d) && TagOk(p, tags, d))
  {
    var a1 := d => QOk(p, d);
    var a2 := d => QOk(p, d) && TagOk(p, tags, d);
    var s1 := FilterQ(docs, QValue(p));
    if QValue(p) == "" {
      SelectAll(docs, a1);
    } else {
      SelectCongruent(docs, d => MatchesQ(QValue(p), d), a1);
    }
    if TagActive(p.tag) {
      SelectKeepsNoDuplicates(docs, a1);
      TagFilterIsSelect(s1, tags, p.tag);
      SelectNarrow(docs, a1, d => HasTagIn(d, tags, p.tag), a2);
    } else {
      SelectCongruent(docs, a1, a2);
    }
  }

  /** A declarative filter after a filter by `prev` is one filter by `next`. */
  lemma DeclarativeStage(docs: seq<Document>, prev: Document -> bool, given: bool,
                         keep: Document -> bool, next: Document -> bool)
    requires forall x :: x in docs ==> next(x) == (prev(x) && (!given || keep(x)))
    ensures (if given then Select(Select(docs, prev), keep) else Select(docs, prev))
            == Select(docs, next)
  {
    if given {
      SelectNarrow(docs, prev, keep, next);
    } else {
      SelectCongruent(docs, prev, next);
    }
  }

  /** On a queryset without repeated rows, the filters together keep exactly
      the documents every given filter accepts, in queryset order, each once. */
  lemma ApplyFiltersIsSelect(docs: seq<Document>, tags: map<TagId, Tag>, p: FilterParams)
    requires NoDuplicates(docs)
    ensures ApplyFilters(docs, tags, p) == Select(docs, d => Accepts(p, tags, d))
    ensures IsSubsequence(ApplyFilters(docs, tags, p), docs)
    ensures NoDuplicates(ApplyFilters(docs, tags, p))
  {
    var a2 := d => QOk(p, d) && TagOk(p, tags, d);
    var a3 := d => a2(d) && FolderOk(p, d);
    var a4 := d => a3(d) && ProcessedOk(p, d);
    var a5 := d => a4(d) && AfterOk(p, d);
    var a6 := d => Accepts(p, tags, d);
    SearchStages(docs, tags, p);
    DeclarativeStage(docs, a2, p.folder.Some?, d => FolderOk(p, d), a3);
    DeclarativeStage(docs, a3, p.processed.Some?, d => ProcessedOk(p, d), a4);
    DeclarativeStage(docs, a4, p.createdAfter.Some?, d => AfterOk(p, d), a5);
    DeclarativeStage(docs, a5, p.createdBefore.Some?, d => BeforeOk(p, d), a6);
    SelectIsSubsequence(docs, a6);
    SelectKeepsNoDuplicates(docs, a6);
  }
}
