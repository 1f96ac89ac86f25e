# Random-quote widget: verified model of the quote store and server merge

The widget keeps an insertion-ordered list of quote records
`{id, quote, author}` in memory. It seeds the list with three default
quotes when storage holds nothing. It adds a quote typed into a form, offers a
dropdown of authors headed by the sentinel `all`, and shows the quotes of the
selected author. Now and then it reconciles the list with a list fetched
from a server.

The reconciliation (`mergeQuotes`) works on a copy of the local list. It takes
the server records in server order. Each one either replaces the first record
so far with the same id (which may be a server record appended earlier in the
same pass), but only when its text is strictly longer, or it is appended when
no record has that id yet.

This project models that logic as pure Dafny functions over `seq<Quote>`.
The form fields, the stored snapshot and the fetch result become plain
parameters. Modules:

- `Wrappers` (quote.dfy): `Option` and `Result`, used across the model.
- `QuoteRecord` (quote.dfy): the record, and JavaScript's `String.length`
  measure. That measure counts UTF-16 code units: a character outside the
  Basic Multilingual Plane counts 2.
- `QuoteStore` (store.dfy): the default seed, `loadQuotes` and `addQuote`.
- `CategoryIndex` (category.dfy): the dropdown labels, the restored
  selection, and `filterQuotesByCategory`.
- `Reconciler` (merge.dfy): `findIndex`, one step of the merge loop, and
  `mergeQuotes` as a fold over the server list. The merge is described
  independently of the loop, slot by slot through `Champion`, and is proved
  idempotent.
- `QuoteApp` (app.dfy): a sync attempt, and how adding and syncing affect
  the dropdown and the filtered view.

Where the code behaves in ways a reader might not expect, the model follows
the code:

- Add rejects only empty fields. Whitespace-only text or author is accepted,
  because truthiness is the only check.
- A stored snapshot that fails to decode is an error (`MalformedSnapshot`).
  The code does not catch it, so there is no fallback to the seed. An empty
  stored text is falsy, so it seeds the list just as a missing key does.
- The dropdown labels are not always a set. An author literally named
  `all` is listed a second time after the sentinel
  (`CategoryIndex.SentinelAuthorListedTwice`).
- Ids are not unique once server records are merged in
  (`QuoteApp.AddAfterSyncCanReuseId`).

## Model

| member | source | states |
|---|---|---|
| QuoteRecord.Utf16Length | dom-manipulation/script.js:140 | the length the merge compares lies between the character count and twice it, and equals the character count exactly when no character needs a surrogate pair |
| QuoteRecord.CodeUnits | dom-manipulation/script.js:140 | one character occupies one UTF-16 code unit, or two exactly when its code point lies outside the Basic Multilingual Plane |
| QuoteRecord.Utf16LengthAppend | dom-manipulation/script.js:140 | the length of a concatenation is the sum of the lengths, so with `CodeUnits` it fixes every string's length: one unit per character plus one more per character outside the Basic Multilingual Plane |
| QuoteRecord.Utf16LengthOfChar | dom-manipulation/script.js:140 | a one-character string is one code unit long, or two when the character lies outside the Basic Multilingual Plane |
| QuoteStore.Load | dom-manipulation/script.js:8-20 | a missing or empty stored text installs the three-record seed with ids 1, 2, 3 and asks for it to be written back; a decodable snapshot is taken as it is; an undecodable one is an error, and only then |
| QuoteStore.SeedIsThreeAdds | dom-manipulation/script.js:14-18 | the seed is exactly what three successive adds into an empty list produce, so it has non-empty fields and ids equal to positions |
| QuoteStore.AddQuote | dom-manipulation/script.js:56-75 | an empty text or author leaves the list unchanged; otherwise exactly one record with id `old length + 1` is appended and the earlier records are untouched |
| QuoteStore.AddPreservesInvariants | dom-manipulation/script.js:60-67 | adding keeps every record's text and author non-empty and keeps ids equal to one-based positions |
| QuoteStore.AddAcceptsWhitespace | dom-manipulation/script.js:60 | every non-empty text and author, whitespace-only ones included, passes the check and is appended untrimmed with id `old length + 1` |
| CategoryIndex.Authors | dom-manipulation/script.js:81 | one author per record, in list order |
| CategoryIndex.Distinct | dom-manipulation/script.js:81 | spreading a set built from a list gives each value once, no other values, ordered by where each value first occurs |
| CategoryIndex.Categories | dom-manipulation/script.js:81 | the labels start with `all`, even for an empty list; after it come exactly the authors present, each once, in first-occurrence order |
| CategoryIndex.SentinelAuthorListedTwice | dom-manipulation/script.js:81 | when some author is named `all`, the label list holds `all` twice |
| CategoryIndex.RestoredSelection | dom-manipulation/script.js:93 | a missing or empty saved label restores `all`; any other saved label is restored as it is; the result is never empty |
| CategoryIndex.ByAuthor | dom-manipulation/script.js:107 | the filter result is a subsequence of the list, every record in it has the author, and it holds every such record as often as the list does |
| CategoryIndex.FilterByCategory | dom-manipulation/script.js:105-108 | `all` gives the list unchanged; any other label gives exactly its author's records in list order, possibly none |
| CategoryIndex.ByAuthorAppend | dom-manipulation/script.js:107 | filtering a concatenation is concatenating the filtered parts |
| CategoryIndex.FilterIdempotent | dom-manipulation/script.js:105-108 | filtering a filtered view by the same label changes nothing |
| CategoryIndex.LabelOfferedIffNonEmpty | dom-manipulation/script.js:81-107 | a label other than `all` is offered in the dropdown exactly when its filtered view is non-empty |
| Reconciler.FindById | dom-manipulation/script.js:137 | the lookup finds a position exactly when the id is present, and the position it finds is the first one with that id |
| Reconciler.MergeOne | dom-manipulation/script.js:136-147 | a record with a new id is appended; otherwise the length is kept, the first record of each id is offered the server record, and every other record is untouched |
| Reconciler.ReplacementNeedsLongerText | dom-manipulation/script.js:138-142 | a server record with a present id changes the list exactly when its text is strictly longer than the first matching record's; an equal length keeps the existing record |
| Reconciler.Merge | dom-manipulation/script.js:133-150 | the result is at least as long as the local list and at most local plus server; each local position keeps its id and holds the local record or a strictly longer server record; appended records come from the server with ids new to the local list, each id once |
| Reconciler.Champion | dom-manipulation/script.js:139-142 | offering every server record to one slot leaves it with the longest text among its own record and the server records with its id, preferring its own record and then the earliest server record on ties |
| Reconciler.MergeSlots | dom-manipulation/script.js:136-142 | each local position ends up with its champion over the whole server list when it is the first record with its id, and is left alone otherwise |
| Reconciler.MergeTailChampions | dom-manipulation/script.js:143-146 | each appended record is the champion of the first server record with its id |
| Reconciler.MergeTailOrder | dom-manipulation/script.js:143-146 | appended records follow the order in which their ids first appear in the server list |
| Reconciler.MergeIdSet | dom-manipulation/script.js:133-149 | the merged list holds every local id and every server id, and no other |
| Reconciler.MergeLength | dom-manipulation/script.js:136-147 | the merged length is the local length plus the number of distinct server ids absent from the local list |
| Reconciler.MergeCovers | dom-manipulation/script.js:133-149 | after a merge, every server record's id has a first match whose text is at least as long |
| Reconciler.ResyncIsIdentity | dom-manipulation/script.js:133-149 | merging the result again with any list drawn from the same server records changes nothing |
| Reconciler.MergeIdempotent | dom-manipulation/script.js:133-149 | merging the result with the same server list again gives the same list |
| Reconciler.MergeExample | dom-manipulation/script.js:133-149 | for local ids 1 and 2 and server ids 1 (shorter text) and 3, id 1 is kept and id 3 is appended |
| QuoteApp.SyncWithServer | dom-manipulation/script.js:111-130 | a failed fetch leaves the list as it was; a fetched list is merged in, so every server record ends up covered, every local position keeps its id and holds its record or a strictly longer server record, and only new server ids are appended |
| QuoteApp.SyncIdempotent | dom-manipulation/script.js:111-130 | syncing twice with the same fetch outcome equals syncing once |
| QuoteApp.AddExtendsCategories | dom-manipulation/script.js:60-81 | an accepted add extends the dropdown by its author when the author is new, and leaves it unchanged otherwise |
| QuoteApp.AddShowsInFilter | dom-manipulation/script.js:60-107 | an accepted add appears last in its author's filtered view, after the records already there |
| QuoteApp.AddAfterSyncCanReuseId | dom-manipulation/script.js:62 | a synced server id one past the next local id is taken again by the next add, so ids repeat |

## Left out

- DOM rendering: the display, the add form, building the dropdown options, notifications and alerts. They are presentation only.
- Putting the restored label into the dropdown (line 94). What the select element then reports is DOM behaviour; the filter takes the selected label as a parameter.
- `localStorage` and `sessionStorage` reads and writes, `JSON.parse` and `JSON.stringify`. They are browser APIs. A stored snapshot is a parameter holding the stored text and its decoded list, and `Loaded.seeded` marks when the seed must be written back.
- The last-viewed quote kept in session storage. It is a storage side effect of the display.
- The random pick in `showRandomQuote`. It uses floating point and randomness.
- `fetch`, `async`, the five-minute timer and the notification timeout. They are network, timing and concurrency. A sync attempt takes the fetch outcome as a parameter.
- Server records without a `quote` field, and a server body with no `quotes` array. A missing array makes `forEach` throw inside the sync, which is caught and reported. A record with a new id is appended without its `quote` being read (lines 143-145); `.quote.length` is read only when the lookup finds a match (line 140), and it throws then if either the server record or the matched record (possibly one appended earlier) lacks the field. The model covers well-formed server records only.
- Non-integral ids. Ids are JavaScript numbers; only integral ids are modelled, so `NaN` and fractional ids are out. Strings with lone surrogates cannot be written as Dafny strings.
- Saving the selected label when the filter changes (line 100). It is a storage write.
- Import and export of a file: script.js has neither.
