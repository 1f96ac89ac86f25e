/** The quote store: the default seed, loading a persisted snapshot, and
    adding a quote from the form. Storage and JSON are foreign: a snapshot
    arrives as the stored text together with what decoding it yields. */
module QuoteStore {
  import opened Wrappers
  import opened QuoteRecord

  const KruseText: string := "Life isn't about getting and having, it's about giving and being."
  const HillText: string := "Whatever the mind of man can conceive and believe, it can achieve."
  const EinsteinText: string := "Strive not to be a success, but rather to be of value."

  /** The three records the store starts from when nothing is stored. */
  function DefaultQuotes(): seq<Quote> {
    [ Quote(1, KruseText, "Kevin Kruse"),
      Quote(2, HillText, "Napoleon Hill"),
      Quote(3, EinsteinText, "Albert Einstein") ]
  }

  /** What storage holds under the `quotes` key: the raw text, and the list
      decoding it gives (`None` when the decoder throws). */
  datatype Snapshot = Snapshot(raw: string, decoded: Option<seq<Quote>>)

  datatype LoadError = MalformedSnapshot

  /** The list the store holds after loading; `seeded` says that the seed was
      installed and must be written back to storage. */
  datatype Loaded = Loaded(quotes: seq<Quote>, seeded: bool)

  /** Load the store. A missing key and an empty stored text are both falsy,
      so both install the seed; otherwise the decoded list is taken as it is,
      and a text that does not decode is an error (the source does not catch
      it, so no fallback to the seed happens). */
  function Load(stored: Option<Snapshot>): (r: Result<Loaded, LoadError>)
    ensures r.Failure? <==> stored.Some? && Truthy(stored.value.raw) && stored.value.decoded.None?
    ensures r.Success? && r.value.seeded <==> stored.None? || !Truthy(stored.value.raw)
    ensures r.Success? && r.value.seeded ==> r.value.quotes == DefaultQuotes()
    ensures r.Success? && !r.value.seeded ==> r.value.quotes == stored.value.decoded.value
  {
    match stored
    case None => Success(Loaded(DefaultQuotes(), true))
    case Some(snapshot) =>
      if !Truthy(snapshot.raw) then Success(Loaded(DefaultQuotes(), true))
      else match snapshot.decoded
        case None => Failure(MalformedSnapshot)
        case Some(qs) => Success(Loaded(qs, false))
  }

  /** Add a quote from the form. Both fields must be truthy; the new record
      takes the id `length + 1` and goes to the end of the list. */
  function AddQuote(qs: seq<Quote>, text: string, author: string): (r: seq<Quote>)
    ensures text == "" || author == "" ==> r == qs
    ensures text != "" && author != "" ==>
              && |r| == |qs| + 1
              && r[..|qs|] == qs
              && r[|qs|] == Quote(|qs| + 1, text, author)
  {
    if Truthy(text) && Truthy(author) then qs + [Quote(|qs| + 1, text, author)] else qs
  }

  /** Every record has a non-empty text and author, as the add form demands. */
  predicate Validated(qs: seq<Quote>) {
    forall i :: 0 <= i < |qs| ==> qs[i].quote != "" && qs[i].author != ""
  }

  /** Each record's id is its one-based position, the numbering adds produce. */
  predicate NumberedByPosition(qs: seq<Quote>) {
    forall i :: 0 <= i < |qs| ==> qs[i].id == i + 1
  }

  /** Adding keeps both store invariants: validation holds of what enters, and
      the new id continues the numbering. */
  lemma AddPreservesInvariants(qs: seq<Quote>, text: string, author: string)
    requires Validated(qs) && NumberedByPosition(qs)
    ensures Validated(AddQuote(qs, text, author))
    ensures NumberedByPosition(AddQuote(qs, text, author))
  {
  }

  /** The seed is exactly what three adds into an empty list produce, so it
      satisfies both store invariants. */
  lemma SeedIsThreeAdds()
    ensures DefaultQuotes() ==
      AddQuote(AddQuote(AddQuote([], KruseText, "Kevin Kruse"), HillText, "Napoleon Hill"),
               EinsteinText, "Albert Einstein")
    ensures |DefaultQuotes()| == 3
    ensures Validated(DefaultQuotes()) && NumberedByPosition(DefaultQuotes())
  {
    assert |KruseText| > 0 && |HillText| > 0 && |EinsteinText| > 0;
  }

  /** Only emptiness is checked, nothing is trimmed: any non-empty text and
      author, whitespace-only ones included, are appended as typed. */
  lemma AddAcceptsWhitespace(qs: seq<Quote>, text: string, author: string)
    requires text != "" && author != ""
    ensures AddQuote(qs, text, author) == qs + [Quote(|qs| + 1, text, author)]
  {
  }
}
