/** The category index: the dropdown labels derived from the authors, the
    saved selection, and filtering the list by the selected label. */
module CategoryIndex {
  import opened Wrappers
  import opened QuoteRecord

  /** The sentinel label that selects every quote. */
  const AllLabel: string := "all"

  /** No value occurs twice. */
  predicate NoDuplicates<T(==)>(xs: seq<T>) {
    forall i, j :: 0 <= i < j < |xs| ==> xs[i] != xs[j]
  }

  /** The position where `x` first occurs in `xs`. */
  function FirstIndex<T(==)>(xs: seq<T>, x: T): (i: nat)
    requires x in xs
    ensures i < |xs| && xs[i] == x
    ensures forall k :: 0 <= k < i ==> xs[k] != x
  {
    if xs[0] == x then 0 else 1 + FirstIndex(xs[1..], x)
  }

  /** Extending a sequence does not move the first occurrence of a value it
      already held. */
  lemma FirstIndexOfPrefix<T>(xs: seq<T>, y: T, x: T)
    requires x in xs
    ensures x in xs + [y] && FirstIndex(xs + [y], x) == FirstIndex(xs, x)
  {
    var i, j := FirstIndex(xs + [y], x), FirstIndex(xs, x);
    assert (xs + [y])[j] == x;
    assert xs[i] == x;
  }

  /** `r` lists the values of `xs` once each, and no others, ordered by
      where each first occurs in `xs`. */
  predicate DistinctOf<T(==)>(xs: seq<T>, r: seq<T>) {
    && NoDuplicates(r)
    && (forall i :: 0 <= i < |r| ==> r[i] in xs)
    && (forall i :: 0 <= i < |xs| ==> xs[i] in r)
    && (forall i, j :: 0 <= i < j < |r| ==> FirstIndex(xs, r[i]) < FirstIndex(xs, r[j]))
  }

  /** The values of `xs` with repeats dropped, each kept where it first
      occurs: what spreading a JavaScript `Set` built from `xs` yields. */
  function Distinct<T(==)>(xs: seq<T>): (r: seq<T>)
    ensures DistinctOf(xs, r)
  {
    if |xs| == 0 then []
    else
      var d := Distinct(xs[..|xs| - 1]);
      var r := if xs[|xs| - 1] in d then d else d + [xs[|xs| - 1]];
      assert xs == xs[..|xs| - 1] + [xs[|xs| - 1]];
      if xs[|xs| - 1] in d then
        DistinctStepOld(xs[..|xs| - 1], xs[|xs| - 1], d);
        r
      else
        DistinctStepNew(xs[..|xs| - 1], xs[|xs| - 1], d);
        r
  }

  /** Extending a sequence keeps the first occurrence of every value it held. */
  lemma FirstIndexesKept<T>(init: seq<T>, last: T)
    ensures forall x | x in init :: x in init + [last] && FirstIndex(init + [last], x) == FirstIndex(init, x)
  {
    forall x | x in init
      ensures x in init + [last] && FirstIndex(init + [last], x) == FirstIndex(init, x)
    {
      FirstIndexOfPrefix(init, last, x);
    }
  }

  /** A value already among the distinct values leaves them as they are. */
  lemma DistinctStepOld<T>(init: seq<T>, last: T, d: seq<T>)
    requires DistinctOf(init, d) && last in d
    ensures DistinctOf(init + [last], d)
  {
    var xs := init + [last];
    FirstIndexesKept(init, last);
    forall i | 0 <= i < |xs| ensures xs[i] in d {
      if i < |init| { assert xs[i] == init[i]; }
    }
  }

  /** A value new to the list is added at the end of the distinct values. */
  lemma DistinctStepNew<T>(init: seq<T>, last: T, d: seq<T>)
    requires DistinctOf(init, d) && last !in d
    ensures DistinctOf(init + [last], d + [last])
  {
    var xs, r := init + [last], d + [last];
    FirstIndexesKept(init, last);
    assert last !in init;
    assert FirstIndex(xs, last) == |init|;
    forall i | 0 <= i < |r| ensures r[i] in xs {
      if i < |d| { assert r[i] == d[i]; }
    }
    forall i | 0 <= i < |xs| ensures xs[i] in r {
      if i < |init| { assert xs[i] == init[i]; }
    }
    forall i, j | 0 <= i < j < |r| ensures FirstIndex(xs, r[i]) < FirstIndex(xs, r[j]) {
      assert r[i] == d[i] && d[i] in init;
    }
  }

  /** Adding one value at the end adds it to the distinct values when new. */
  lemma DistinctSnoc<T>(xs: seq<T>, x: T)
    ensures Distinct(xs + [x]) == Distinct(xs) + if x in xs then [] else [x]
  {
    assert (xs + [x])[..|xs|] == xs;
  }

  /** `quotes.map(quote => quote.author)`. */
  function Authors(qs: seq<Quote>): (r: seq<string>)
    ensures |r| == |qs| && forall i :: 0 <= i < |qs| ==> r[i] == qs[i].author
  {
    seq(|qs|, i requires 0 <= i < |qs| => qs[i].author)
  }

  /** The dropdown labels: the sentinel first, then each author once, in the
      order the authors first appear in the list. */
  function Categories(qs: seq<Quote>): (r: seq<string>)
    ensures |r| >= 1 && r[0] == AllLabel
    ensures NoDuplicates(r[1..])
    // Every label after the sentinel is an author, so `FirstIndex` below is defined.
    ensures forall i :: 1 <= i < |r| ==> r[i] in Authors(qs)
    ensures forall a :: a in r[1..] <==> exists i :: 0 <= i < |qs| && qs[i].author == a
    ensures forall i, j :: 1 <= i < j < |r| ==>
              FirstIndex(Authors(qs), r[i]) < FirstIndex(Authors(qs), r[j])
  {
    var authors := Authors(qs);
    var r := [AllLabel] + Distinct(authors);
    assert r[1..] == Distinct(authors);
    forall a | a in r[1..]
      ensures exists i :: 0 <= i < |qs| && qs[i].author == a
    {
      var i := FirstIndex(authors, a);
      assert qs[i].author == a;
    }
    r
  }

  /** The saved label, or the sentinel when none (or an empty one) is saved. */
  function RestoredSelection(saved: Option<string>): (r: string)
    ensures r != ""
    ensures saved.Some? && saved.value != "" ==> r == saved.value
    ensures saved.None? || saved.value == "" ==> r == AllLabel
  {
    match saved
    case Some(text) => if Truthy(text) then text else AllLabel
    case None => AllLabel
  }

  /** `r` is `qs` filtered by author `a`: a subsequence of `qs` whose records
      all have that author and that holds every such record as often as `qs`
      does. */
  ghost predicate FilteredBy(qs: seq<Quote>, a: string, r: seq<Quote>) {
    && IsSubsequence(r, qs)
    && (forall i :: 0 <= i < |r| ==> r[i].author == a)
    && (forall q :: multiset(r)[q] == if q.author == a then multiset(qs)[q] else 0)
  }

  /** `qs.filter(quote => quote.author === a)`. */
  function ByAuthor(qs: seq<Quote>, a: string): (r: seq<Quote>)
    ensures FilteredBy(qs, a, r)
  {
    if |qs| == 0 then []
    else
      var rest := ByAuthor(qs[1..], a);
      var r := if qs[0].author == a then [qs[0]] + rest else rest;
      ByAuthorStep(qs, a, rest);
      r
  }

  /** Filtering the tail and keeping a matching head filters the list. */
  lemma ByAuthorStep(qs: seq<Quote>, a: string, rest: seq<Quote>)
    requires |qs| > 0 && FilteredBy(qs[1..], a, rest)
    ensures FilteredBy(qs, a, if qs[0].author == a then [qs[0]] + rest else rest)
  {
    assert qs == [qs[0]] + qs[1..];
    assert multiset(qs) == multiset{qs[0]} + multiset(qs[1..]);
    if qs[0].author == a {
      assert ([qs[0]] + rest)[1..] == rest;
    }
  }

  /** `xs` can be obtained from `ys` by deleting elements: same values in the
      same relative order. */
  ghost predicate IsSubsequence<T>(xs: seq<T>, ys: seq<T>)
    decreases |ys|
  {
    || |xs| == 0
    || (&& |ys| > 0
        && ((xs[0] == ys[0] && IsSubsequence(xs[1..], ys[1..])) || IsSubsequence(xs, ys[1..])))
  }

  /** The quotes shown for a selected label: the whole list for the sentinel,
      otherwise the records by that author in list order, possibly none. */
  function FilterByCategory(qs: seq<Quote>, selected: string): (r: seq<Quote>)
    ensures selected == AllLabel ==> r == qs
    ensures selected != AllLabel ==> FilteredBy(qs, selected, r)
  {
    if selected == AllLabel then qs else ByAuthor(qs, selected)
  }

  /** Filtering distributes over concatenation, so appending records to the
      list appends their matches to the filtered view. */
  lemma {:induction false} ByAuthorAppend(a: seq<Quote>, b: seq<Quote>, sel: string)
    ensures ByAuthor(a + b, sel) == ByAuthor(a, sel) + ByAuthor(b, sel)
    decreases |a|
  {
    if |a| == 0 {
      assert a + b == b;
    } else {
      assert (a + b)[0] == a[0];
      assert (a + b)[1..] == a[1..] + b;
      ByAuthorAppend(a[1..], b, sel);
    }
  }

  /** A non-sentinel label has a non-empty filtered view exactly when it is
      offered in the dropdown. */
  lemma LabelOfferedIffNonEmpty(qs: seq<Quote>, sel: string)
    requires sel != AllLabel
    ensures sel in Categories(qs)[1..] <==> FilterByCategory(qs, sel) != []
  {
    var r := FilterByCategory(qs, sel);
    if sel in Categories(qs)[1..] {
      var i :| 0 <= i < |qs| && qs[i].author == sel;
      assert qs[i] in multiset(qs);
      assert multiset(r)[qs[i]] > 0;
    }
  }

  /** Filtering an already filtered view by the same label changes nothing. */
  lemma FilterIdempotent(qs: seq<Quote>, sel: string)
    ensures FilterByCategory(FilterByCategory(qs, sel), sel) == FilterByCategory(qs, sel)
  {
    if sel != AllLabel {
      ByAuthorKeepsMatching(ByAuthor(qs, sel), sel);
    }
  }

  /** A list whose every record matches the label is its own filtered view. */
  lemma {:induction false} ByAuthorKeepsMatching(qs: seq<Quote>, a: string)
    requires forall i :: 0 <= i < |qs| ==> qs[i].author == a
    ensures ByAuthor(qs, a) == qs
    decreases |qs|
  {
    if |qs| > 0 {
      ByAuthorKeepsMatching(qs[1..], a);
      assert qs == [qs[0]] + qs[1..];
    }
  }

  /** A value occurs once in a sequence without duplicates. */
  lemma {:induction false} OccursOnce<T>(xs: seq<T>, x: T)
    requires NoDuplicates(xs) && x in xs
    ensures multiset(xs)[x] == 1
    decreases |xs|
  {
    assert xs == [xs[0]] + xs[1..];
    if xs[0] == x {
      assert x !in xs[1..] by {
        forall k | 1 <= k < |xs| ensures xs[k] != x {
          assert xs[0] != xs[k];
        }
      }
    } else {
      OccursOnce(xs[1..], x);
    }
  }

  /** An author literally named like the sentinel is listed a second time:
      the sentinel is prepended outside the de-duplicating set. */
  lemma SentinelAuthorListedTwice(qs: seq<Quote>)
    requires exists i :: 0 <= i < |qs| && qs[i].author == AllLabel
    ensures multiset(Categories(qs))[AllLabel] == 2
  {
    var r := Categories(qs);
    assert r == [r[0]] + r[1..];
    OccursOnce(r[1..], AllLabel);
  }
}
