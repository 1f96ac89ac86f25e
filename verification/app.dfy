/** How the operations meet in the widget: syncing with the server,
    and what adding and syncing do to the dropdown and the filtered view. */
module QuoteApp {
  import opened Wrappers
  import opened QuoteRecord
  import opened QuoteStore
  import opened CategoryIndex
  import opened Reconciler

  /** Why a sync attempt produced no server list: the request, or decoding
      its body, failed. */
  datatype FetchError = TransportError

  /** One sync attempt: on a fetched server list the local list becomes the
      merge of the two; on a failure it is kept as it was. */
  function SyncWithServer(quotes: seq<Quote>, fetched: Result<seq<Quote>, FetchError>): (r: seq<Quote>)
    ensures fetched.Failure? ==> r == quotes
    ensures fetched.Success? ==> Covered(r, fetched.value)
    ensures fetched.Success? ==> KeepsLocal(quotes, fetched.value, r)
    // A summary of both cases: the list never shrinks and keeps its ids.
    ensures |r| >= |quotes| && forall i :: 0 <= i < |quotes| ==> r[i].id == quotes[i].id
  {
    match fetched
    case Failure(_) => quotes
    case Success(server) =>
      MergeCovers(quotes, server);
      Merge(quotes, server)
  }

  /** Syncing twice with the same outcome is the same as syncing once. */
  lemma SyncIdempotent(quotes: seq<Quote>, fetched: Result<seq<Quote>, FetchError>)
    ensures SyncWithServer(SyncWithServer(quotes, fetched), fetched) == SyncWithServer(quotes, fetched)
  {
    if fetched.Success? {
      MergeIdempotent(quotes, fetched.value);
    }
  }

  /** An accepted add lists its author at the end of the dropdown if the
      author is new, and leaves the dropdown alone otherwise. */
  lemma AddExtendsCategories(qs: seq<Quote>, text: string, author: string)
    requires text != "" && author != ""
    ensures Categories(AddQuote(qs, text, author)) ==
              Categories(qs) + if author in Authors(qs) then [] else [author]
  {
    var added := AddQuote(qs, text, author);
    assert Authors(added) == Authors(qs) + [author];
    DistinctSnoc(Authors(qs), author);
  }

  /** An accepted add appears at the end of its author's filtered view. */
  lemma AddShowsInFilter(qs: seq<Quote>, text: string, author: string)
    requires text != "" && author != ""
    ensures FilterByCategory(AddQuote(qs, text, author), author) ==
              FilterByCategory(qs, author) + [Quote(|qs| + 1, text, author)]
  {
    var q := Quote(|qs| + 1, text, author);
    if author != AllLabel {
      ByAuthorAppend(qs, [q], author);
      assert ByAuthor([q], author) == [q];
    }
  }

  /** Ids are not unique: a server record whose id is one past the next
      local id is appended by a sync, and the next add takes its id again. */
  lemma AddAfterSyncCanReuseId(qs: seq<Quote>, s: Quote, text: string, author: string)
    requires s.id == |qs| + 2 && s.id !in IdSet(qs)
    requires text != "" && author != ""
    ensures var added := AddQuote(SyncWithServer(qs, Success([s])), text, author);
            |added| == |qs| + 2 && added[|qs|].id == added[|qs| + 1].id
  {
    assert MergeOne(qs, s) == qs + [s];
    assert Merge(qs, [s]) == Merge(qs + [s], []);
  }
}
