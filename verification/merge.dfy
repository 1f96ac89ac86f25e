/** The reconciler: merging the local list with the list fetched from the
    server. Local order is kept; a server record either replaces the first
    record so far with its id, when its text is strictly longer, or is
    appended when no record has its id yet. */
module Reconciler {
  import opened Wrappers
  import opened QuoteRecord

  /** The ids present in a list. */
  function IdSet(qs: seq<Quote>): set<int> {
    set i | 0 <= i < |qs| :: qs[i].id
  }

  /** `findIndex(q => q.id === id)`: the first position holding `id`, or
      `None` where the source gets -1. */
  function FindById(qs: seq<Quote>, id: int): (r: Option<nat>)
    ensures r.Some? <==> id in IdSet(qs)
    ensures r.Some? ==> r.value < |qs| && qs[r.value].id == id
    ensures r.Some? ==> forall k :: 0 <= k < r.value ==> qs[k].id != id
  {
    if |qs| == 0 then None
    else if qs[0].id == id then Some(0)
    else
      var rest := FindById(qs[1..], id);
      assert forall k :: 1 <= k < |qs| ==> qs[k] == qs[1..][k - 1];
      match rest
      case None => None
      case Some(i) => Some(i + 1)
  }

  /** Position `k` holds the first record with its id. */
  predicate FirstOfId(qs: seq<Quote>, k: nat)
    requires k < |qs|
  {
    FindById(qs, qs[k].id) == Some(k)
  }

  /** What a held record becomes when one server record is offered to it: the
      server record wins only with the same id and a strictly longer text. */
  function Offer(held: Quote, s: Quote): Quote {
    if s.id == held.id && TextLength(s) > TextLength(held) then s else held
  }

  /** One pass of the `forEach` body: merge a single server record. */
  function MergeOne(merged: seq<Quote>, s: Quote): (r: seq<Quote>)
    ensures s.id in IdSet(merged) ==> |r| == |merged|
    ensures s.id !in IdSet(merged) ==> r == merged + [s]
    ensures forall k :: 0 <= k < |merged| ==>
              r[k] == if FirstOfId(merged, k) then Offer(merged[k], s) else merged[k]
  {
    match FindById(merged, s.id)
    case Some(i) =>
      if TextLength(s) > TextLength(merged[i]) then merged[i := s] else merged
    case None =>
      merged + [s]
  }

  /** What a merge result `r` keeps of the local list: its length bounds,
      every local position with its id, holding the local record or a strictly
      longer server record, and a tail of server records whose ids are new to
      the local list and pairwise distinct. */
  predicate KeepsLocal(local: seq<Quote>, server: seq<Quote>, r: seq<Quote>) {
    && |local| <= |r| <= |local| + |server|
    && (forall i :: 0 <= i < |local| ==>
          && r[i].id == local[i].id
          && (r[i] == local[i] || (r[i] in server && TextLength(r[i]) > TextLength(local[i]))))
    && (forall i :: |local| <= i < |r| ==> r[i] in server && r[i].id !in IdSet(local))
    && (forall i, j :: |local| <= i < j < |r| ==> r[i].id != r[j].id)
  }

  /** `mergeQuotes(localQuotes, serverQuotes)`: the server records are merged
      one by one, in server order, into a copy of the local list. */
  function Merge(local: seq<Quote>, server: seq<Quote>): (r: seq<Quote>)
    ensures KeepsLocal(local, server, r)
    decreases |server|
  {
    if |server| == 0 then local
    else
      var r := Merge(MergeOne(local, server[0]), server[1..]);
      KeepsLocalStep(local, server, r);
      r
  }

  /** A result that keeps the list after merging the first server record
      keeps the list before it. */
  lemma KeepsLocalStep(local: seq<Quote>, server: seq<Quote>, r: seq<Quote>)
    requires |server| > 0
    requires KeepsLocal(MergeOne(local, server[0]), server[1..], r)
    ensures KeepsLocal(local, server, r)
  {
    var s, rest := server[0], server[1..];
    var next := MergeOne(local, s);
    assert forall q :: q in rest ==> q in server;
    assert |local| <= |next| <= |local| + 1;
    forall i | 0 <= i < |local|
      ensures r[i].id == local[i].id
      ensures r[i] == local[i] || (r[i] in server && TextLength(r[i]) > TextLength(local[i]))
    {
      assert next[i].id == local[i].id;
      assert next[i] == local[i] || (next[i] == s && TextLength(s) > TextLength(local[i]));
    }
    assert IdSet(local) <= IdSet(next) by {
      forall x | x in IdSet(local) ensures x in IdSet(next) {
        var k :| 0 <= k < |local| && local[k].id == x;
        assert next[k].id == x;
      }
    }
    forall i | |local| <= i < |r|
      ensures r[i] in server && r[i].id !in IdSet(local)
    {
      if i < |next| {
        assert next == local + [s] && r[i].id == s.id;
      }
    }
    forall i, j | |local| <= i < j < |r|
      ensures r[i].id != r[j].id
    {
      if i < |next| {
        assert next == local + [s] && r[i].id == s.id && s.id in IdSet(next);
      }
    }
  }

  /** The ids of a non-empty list: its head's and its tail's. */
  lemma IdSetCons(qs: seq<Quote>)
    requires |qs| > 0
    ensures IdSet(qs) == {qs[0].id} + IdSet(qs[1..])
  {
    assert forall k :: 1 <= k < |qs| ==> qs[k] == qs[1..][k - 1];
    forall x | x in IdSet(qs) ensures x in {qs[0].id} + IdSet(qs[1..]) {
      var k :| 0 <= k < |qs| && qs[k].id == x;
      if k > 0 { assert qs[1..][k - 1].id == x; }
    }
  }

  /** Merging one record adds exactly its id to the ids present. */
  lemma IdSetOfMergeOne(merged: seq<Quote>, s: Quote)
    ensures IdSet(MergeOne(merged, s)) == IdSet(merged) + {s.id}
  {
    var r := MergeOne(merged, s);
    assert forall k :: 0 <= k < |merged| ==> r[k].id == merged[k].id;
    if s.id in IdSet(merged) {
      forall x | x in IdSet(r) ensures x in IdSet(merged) {
        var k :| 0 <= k < |r| && r[k].id == x;
        assert merged[k].id == x;
      }
    } else {
      assert r[|merged|] == s;
    }
  }

  /** Merging yields every local id and every server id, and no other. */
  lemma {:induction false} MergeIdSet(local: seq<Quote>, server: seq<Quote>)
    ensures IdSet(Merge(local, server)) == IdSet(local) + IdSet(server)
    decreases |server|
  {
    if |server| > 0 {
      IdSetOfMergeOne(local, server[0]);
      MergeIdSet(MergeOne(local, server[0]), server[1..]);
      IdSetCons(server);
    }
  }

  /** The list grows by exactly one record per server id that was new to the
      local list, however many server records carry that id. */
  lemma {:induction false} MergeLength(local: seq<Quote>, server: seq<Quote>)
    ensures |Merge(local, server)| == |local| + |IdSet(server) - IdSet(local)|
    decreases |server|
  {
    if |server| > 0 {
      var s, rest := server[0], server[1..];
      var next := MergeOne(local, s);
      MergeLength(next, rest);
      IdSetOfMergeOne(local, s);
      IdSetCons(server);
      NewIdsStep(IdSet(local), IdSet(rest), s.id);
    }
  }

  /** Counting new ids one server id at a time. */
  lemma NewIdsStep(known: set<int>, later: set<int>, id: int)
    ensures |({id} + later) - known| == |later - (known + {id})| + if id in known then 0 else 1
  {
    if id in known {
      assert ({id} + later) - known == later - (known + {id});
    } else {
      assert ({id} + later) - known == (later - (known + {id})) + {id};
    }
  }

  /** A list that keeps the ids of a shorter one position by position still
      finds each of that one's ids where it did. */
  lemma FindByIdStable(before: seq<Quote>, after: seq<Quote>, id: int)
    requires |before| <= |after|
    requires forall k :: 0 <= k < |before| ==> after[k].id == before[k].id
    requires id in IdSet(before)
    ensures FindById(after, id) == FindById(before, id)
  {
    var a := FindById(before, id).value;
    assert after[a].id == id;
  }

  /** `r` is what slot record `q` ends up as when the server records are
      offered to it: same id; `q` itself or a server record with a strictly
      longer text; no server record with that id is longer; and when it is a
      server record, the earliest one of its length among those with its id. */
  predicate IsChampion(q: Quote, server: seq<Quote>, r: Quote) {
    && r.id == q.id
    && (r == q || (r in server && TextLength(r) > TextLength(q)))
    && (forall k :: 0 <= k < |server| && server[k].id == q.id ==> TextLength(server[k]) <= TextLength(r))
    && (r != q ==> exists k :: && 0 <= k < |server| && server[k] == r
                               && forall m :: 0 <= m < k && server[m].id == q.id ==>
                                    TextLength(server[m]) < TextLength(r))
  }

  /** The record one slot ends up holding when every server record is offered
      to it in turn: the longest text among the slot's own record and the
      server records with its id, the earliest of them on a tie, the slot's
      own record first of all. */
  function Champion(q: Quote, server: seq<Quote>): (r: Quote)
    ensures IsChampion(q, server, r)
    decreases |server|
  {
    if |server| == 0 then q
    else
      var r := Champion(Offer(q, server[0]), server[1..]);
      ChampionStep(q, server, r);
      r
  }

  /** The champion after the first offer is the champion overall. */
  lemma ChampionStep(q: Quote, server: seq<Quote>, r: Quote)
    requires |server| > 0
    requires IsChampion(Offer(q, server[0]), server[1..], r)
    ensures IsChampion(q, server, r)
  {
    var rest := server[1..];
    var held := Offer(q, server[0]);
    assert forall k :: 1 <= k < |server| ==> server[k] == rest[k - 1];
    assert forall x :: x in rest ==> x in server;
    forall k | 0 <= k < |server| && server[k].id == q.id
      ensures TextLength(server[k]) <= TextLength(r)
    {
      if k == 0 {
        assert TextLength(held) <= TextLength(r);
      }
    }
    if r != q && r != held {
      var k :| && 0 <= k < |rest| && rest[k] == r
               && forall m :: 0 <= m < k && rest[m].id == q.id ==>
                    TextLength(rest[m]) < TextLength(r);
      assert server[k + 1] == r;
      assert forall m :: 0 <= m < k + 1 && server[m].id == q.id ==>
               TextLength(server[m]) < TextLength(r);
    } else if r != q {
      assert server[0] == r;
    }
  }

  /** Slot `i` of the local list ends up holding its champion over the whole
      server list when it is the first record with its id, and is left alone
      otherwise. */
  lemma {:induction false} MergeSlots(local: seq<Quote>, server: seq<Quote>, i: nat)
    requires i < |local|
    ensures Merge(local, server)[i] ==
              if FirstOfId(local, i) then Champion(local[i], server) else local[i]
    decreases |server|
  {
    if |server| > 0 {
      var next := MergeOne(local, server[0]);
      assert local[i].id in IdSet(local);
      FindByIdStable(local, next, local[i].id);
      assert FirstOfId(next, i) == FirstOfId(local, i);
      MergeSlots(next, server[1..], i);
      if !FirstOfId(local, i) {
        assert next[i] == local[i];
      }
    }
  }

  /** The first record in `server` with the given id. */
  function FirstWithId(server: seq<Quote>, id: int): (r: Quote)
    requires id in IdSet(server)
    ensures r in server && r.id == id
  {
    server[FindById(server, id).value]
  }

  /** A head record with another id is passed over by the lookup. */
  lemma FindByIdSkipsHead(server: seq<Quote>, id: int)
    requires |server| > 0 && server[0].id != id && id in IdSet(server)
    ensures id in IdSet(server[1..])
    ensures FindById(server, id) == Some(FindById(server[1..], id).value + 1)
    ensures FirstWithId(server, id) == FirstWithId(server[1..], id)
  {
    IdSetCons(server);
  }

  /** A head record with another id is never offered successfully. */
  lemma ChampionSkipsHead(q: Quote, server: seq<Quote>)
    requires |server| > 0 && server[0].id != q.id
    ensures Champion(q, server) == Champion(q, server[1..])
  {
  }

  /** Position `|local|` after merging a server record whose id the local
      list lacks holds that record, and it is the first with its id. */
  lemma AppendedIsFirst(local: seq<Quote>, s: Quote)
    requires s.id !in IdSet(local)
    ensures |MergeOne(local, s)| == |local| + 1
    ensures MergeOne(local, s)[|local|] == s && FirstOfId(MergeOne(local, s), |local|)
  {
    var next := MergeOne(local, s);
    assert next[|local|].id == s.id;
  }

  /** Each appended record is the champion of the first server record with
      its id. */
  lemma {:induction false} MergeTailChampions(local: seq<Quote>, server: seq<Quote>, j: nat)
    requires |local| <= j < |Merge(local, server)|
    ensures Merge(local, server)[j].id in IdSet(server)
    ensures Merge(local, server)[j] ==
              Champion(FirstWithId(server, Merge(local, server)[j].id), server)
    decreases |server|
  {
    var r := Merge(local, server);
    MergeIdSet(local, server);
    var s, rest := server[0], server[1..];
    var next := MergeOne(local, s);
    if j < |next| {
      AppendedIsFirst(local, s);
      MergeSlots(next, rest, j);
      assert FindById(server, s.id) == Some(0);
      assert Offer(s, s) == s;
    } else {
      MergeTailChampions(next, rest, j);
      IdSetOfMergeOne(local, s);
      FindByIdSkipsHead(server, r[j].id);
      ChampionSkipsHead(FirstWithId(rest, r[j].id), server);
    }
  }

  /** The appended records follow the order in which their ids first appear
      in the server list. */
  lemma {:induction false} MergeTailOrder(local: seq<Quote>, server: seq<Quote>, i: nat, j: nat)
    requires |local| <= i < j < |Merge(local, server)|
    ensures Merge(local, server)[i].id in IdSet(server)
    ensures Merge(local, server)[j].id in IdSet(server)
    ensures FindById(server, Merge(local, server)[i].id).value
            < FindById(server, Merge(local, server)[j].id).value
    decreases |server|
  {
    var s, rest := server[0], server[1..];
    var next := MergeOne(local, s);
    var r := Merge(next, rest);
    assert r == Merge(local, server);
    IdSetOfMergeOne(local, s);
    MergeIdSet(next, rest);
    IdSetCons(server);
    assert r[j].id !in IdSet(next);
    FindByIdSkipsHead(server, r[j].id);
    if i < |next| {
      AppendedIsFirst(local, s);
      MergeSlots(next, rest, i);
      assert r[i].id == s.id;
    } else {
      MergeTailOrder(next, rest, i, j);
      assert r[i].id !in IdSet(next);
      FindByIdSkipsHead(server, r[i].id);
    }
  }

  /** Server record `s` finds a first match in `qs` whose text is at least
      as long as its own, so merging it into `qs` changes nothing. */
  predicate CoveredBy(qs: seq<Quote>, s: Quote) {
    s.id in IdSet(qs) && TextLength(FirstWithId(qs, s.id)) >= TextLength(s)
  }

  /** Every record of `server` is covered by `qs`. */
  predicate Covered(qs: seq<Quote>, server: seq<Quote>) {
    forall k :: 0 <= k < |server| ==> CoveredBy(qs, server[k])
  }

  /** Merging one record keeps a covered record covered. */
  lemma MergeOneKeepsCover(qs: seq<Quote>, s: Quote, p: Quote)
    requires CoveredBy(qs, p)
    ensures CoveredBy(MergeOne(qs, s), p)
  {
    var r := MergeOne(qs, s);
    FindByIdStable(qs, r, p.id);
    var i := FindById(qs, p.id).value;
    assert r[i] == Offer(qs[i], s);
  }

  /** Merging one record covers that record. */
  lemma MergeOneCoversItself(qs: seq<Quote>, s: Quote)
    ensures CoveredBy(MergeOne(qs, s), s)
  {
    var r := MergeOne(qs, s);
    IdSetOfMergeOne(qs, s);
    if s.id !in IdSet(qs) {
      AppendedIsFirst(qs, s);
    } else {
      FindByIdStable(qs, r, s.id);
      var i := FindById(qs, s.id).value;
      assert r[i] == Offer(qs[i], s);
    }
  }

  /** Merging keeps a covered record covered. */
  lemma {:induction false} MergeKeepsCover(local: seq<Quote>, server: seq<Quote>, p: Quote)
    requires CoveredBy(local, p)
    ensures CoveredBy(Merge(local, server), p)
    decreases |server|
  {
    if |server| > 0 {
      MergeOneKeepsCover(local, server[0], p);
      MergeKeepsCover(MergeOne(local, server[0]), server[1..], p);
    }
  }

  /** After a merge, every server record is covered by the result. */
  lemma {:induction false} MergeCovers(local: seq<Quote>, server: seq<Quote>)
    ensures Covered(Merge(local, server), server)
    decreases |server|
  {
    if |server| > 0 {
      var next := MergeOne(local, server[0]);
      var m := Merge(next, server[1..]);
      MergeCovers(next, server[1..]);
      MergeOneCoversItself(local, server[0]);
      MergeKeepsCover(next, server[1..], server[0]);
      forall k | 1 <= k < |server| ensures CoveredBy(m, server[k]) {
        assert server[k] == server[1..][k - 1];
      }
    }
  }

  /** Merging records that are all covered changes nothing. */
  lemma {:induction false} MergeCoveredIsIdentity(qs: seq<Quote>, server: seq<Quote>)
    requires Covered(qs, server)
    ensures Merge(qs, server) == qs
    decreases |server|
  {
    if |server| > 0 {
      assert CoveredBy(qs, server[0]);
      assert MergeOne(qs, server[0]) == qs;
      assert Covered(qs, server[1..]) by {
        forall k | 0 <= k < |server[1..]| ensures server[1..][k] == server[k + 1] { }
      }
      MergeCoveredIsIdentity(qs, server[1..]);
    }
  }

  /** Syncing again with the same server list, or with any list drawn from
      its records, leaves the merged list as it is. */
  lemma ResyncIsIdentity(local: seq<Quote>, server: seq<Quote>, again: seq<Quote>)
    requires forall k :: 0 <= k < |again| ==> again[k] in server
    ensures Merge(Merge(local, server), again) == Merge(local, server)
  {
    var m := Merge(local, server);
    MergeCovers(local, server);
    forall k | 0 <= k < |again|
      ensures CoveredBy(m, again[k])
    {
      var n :| 0 <= n < |server| && server[n] == again[k];
    }
    MergeCoveredIsIdentity(m, again);
  }

  /** Merging is idempotent. */
  lemma MergeIdempotent(local: seq<Quote>, server: seq<Quote>)
    ensures Merge(Merge(local, server), server) == Merge(local, server)
  {
    ResyncIsIdentity(local, server, server);
  }

  /** The replacement is strictly length-biased: a server record whose id is
      present changes the list exactly when its text is longer than that of
      the first record with its id; an equal length keeps the existing one. */
  lemma ReplacementNeedsLongerText(merged: seq<Quote>, s: Quote)
    requires s.id in IdSet(merged)
    ensures MergeOne(merged, s) != merged <==> TextLength(s) > TextLength(FirstWithId(merged, s.id))
  {
    var i := FindById(merged, s.id).value;
    if TextLength(s) > TextLength(merged[i]) {
      assert MergeOne(merged, s)[i] == s != merged[i];
    }
  }

  /** A worked case: the shorter server text for id 1 is ignored, id 3 is new
      and goes to the end. */
  lemma MergeExample()
    ensures Merge([Quote(1, "ab", "A"), Quote(2, "xyz", "B")], [Quote(1, "a", "A"), Quote(3, "q", "C")])
            == [Quote(1, "ab", "A"), Quote(2, "xyz", "B"), Quote(3, "q", "C")]
  {
    var local := [Quote(1, "ab", "A"), Quote(2, "xyz", "B")];
    assert FindById(local, 1) == Some(0);
    assert MergeOne(local, Quote(1, "a", "A")) == local;
    assert 3 !in IdSet(local);
  }
}
