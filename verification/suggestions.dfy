/**
  The single-span suggestion handlers: `createSuggestion`,
  `acceptSuggestion`, `rejectSuggestion`, `bulkAcceptSuggestions` and
  `bulkRejectSuggestions`. A suggestion is one insertion, deletion or
  replacement over `[startIndex, endIndex)` of the document's working text.
 */
module Suggestions {
  import opened Text
  import opened Schema
  import Sorting

  datatype Status = Pending | Accepted | Rejected

  datatype Suggestion = Suggestion(
    documentId: Id,
    kind: SpliceKind,
    startIndex: int,
    endIndex: int,
    suggestedText: Content,
    originalText: Content,
    status: Status,
    createdAt: int,
    prompt: string,
    modelResponse: string)

  datatype Store = Store(documents: map<Id, Document>, suggestions: map<Id, Suggestion>)

  /** `createSuggestion` stores a new pending suggestion; it checks neither the caller nor the document. */
  function CreateSuggestion(store: Store, id: Id, documentId: Id, kind: SpliceKind, startIndex: int, endIndex: int,
                            suggestedText: Content, originalText: Content, prompt: string, modelResponse: string,
                            now: int): (r: Store)
    requires id !in store.suggestions
    ensures r.documents == store.documents
    ensures r.suggestions.Keys == store.suggestions.Keys + {id}
    ensures (forall k :: k in store.suggestions ==> r.suggestions[k] == store.suggestions[k])
    ensures r.suggestions[id] == Suggestion(documentId, kind, startIndex, endIndex, suggestedText, originalText,
                                            Pending, now, prompt, modelResponse)
  {
    store.(suggestions := store.suggestions[id := Suggestion(documentId, kind, startIndex, endIndex, suggestedText,
                                                             originalText, Pending, now, prompt, modelResponse)])
  }

  /** `document.currentContent || document.content || ""` */
  function WorkingText(d: Document): Content {
    OrIfEmpty(d.currentContent, OrEmpty(d.content))
  }

  /** The splice of one suggestion; an insertion ignores `endIndex`. */
  function ApplySuggestion(content: Content, s: Suggestion): Content {
    Splice(content, s.kind, s.startIndex, s.endIndex, s.suggestedText)
  }

  /** The document after the suggestion handlers write `text` into it for `editor`. */
  function Written(d: Document, text: Content, editor: Identity, now: int): Document {
    d.(currentContent := Some(text), content := Some(text), updatedAt := now, lastEditedBy := Some(editor.subject))
  }

  /** The checks `acceptSuggestion` passes, in the order it makes them. */
  predicate MayAccept(store: Store, auth: Option<Identity>, id: Id) {
    && auth.Some?
    && id in store.suggestions
    && store.suggestions[id].status == Pending
    && store.suggestions[id].documentId in store.documents
  }

  function AcceptError(store: Store, auth: Option<Identity>, id: Id): Error
    requires !MayAccept(store, auth, id)
  {
    if auth.None? then Unauthorized
    else if id !in store.suggestions then SuggestionNotFound
    else if store.suggestions[id].status != Pending then AlreadyProcessed
    else DocumentNotFound
  }

  /**
    `acceptSuggestion`: a pending suggestion is spliced into the document's
    working text, the result is written to both `currentContent` and
    `content`, and the suggestion becomes accepted. Ownership of the
    document is not checked.
   */
  function AcceptSuggestion(store: Store, auth: Option<Identity>, id: Id, now: int): (r: Result<Store>)
    ensures r.Ok? <==> MayAccept(store, auth, id)
    ensures r.Err? ==> r.error == AcceptError(store, auth, id)
    ensures r.Ok? ==>
      var s := store.suggestions[id];
      var d := store.documents[s.documentId];
      && r.value.documents.Keys == store.documents.Keys
      && r.value.documents[s.documentId] == Written(d, ApplySuggestion(WorkingText(d), s), auth.value, now)
      && (forall k :: k in store.documents && k != s.documentId ==> r.value.documents[k] == store.documents[k])
      && r.value.suggestions.Keys == store.suggestions.Keys
      && r.value.suggestions[id] == s.(status := Accepted)
      && (forall k :: k in store.suggestions && k != id ==> r.value.suggestions[k] == store.suggestions[k])
  {
    if !MayAccept(store, auth, id) then Err(AcceptError(store, auth, id))
    else
      var s := store.suggestions[id];
      var d := store.documents[s.documentId];
      var text := ApplySuggestion(WorkingText(d), s);
      Ok(Store(store.documents[s.documentId := Written(d, text, auth.value, now)],
               store.suggestions[id := s.(status := Accepted)]))
  }

  predicate MayReject(store: Store, auth: Option<Identity>, id: Id) {
    auth.Some? && id in store.suggestions && store.suggestions[id].status == Pending
  }

  /** `rejectSuggestion`: a pending suggestion becomes rejected; no document changes. */
  function RejectSuggestion(store: Store, auth: Option<Identity>, id: Id): (r: Result<Store>)
    ensures r.Ok? <==> MayReject(store, auth, id)
    ensures auth.None? ==> r == Err(Unauthorized)
    ensures auth.Some? && id !in store.suggestions ==> r == Err(SuggestionNotFound)
    ensures auth.Some? && id in store.suggestions && store.suggestions[id].status != Pending ==> r == Err(AlreadyProcessed)
    ensures r.Ok? ==>
      && r.value.documents == store.documents
      && r.value.suggestions.Keys == store.suggestions.Keys
      && r.value.suggestions[id] == store.suggestions[id].(status := Status.Rejected)
      && (forall k :: k in store.suggestions && k != id ==> r.value.suggestions[k] == store.suggestions[k])
  {
    if auth.None? then Err(Unauthorized)
    else if id !in store.suggestions then Err(SuggestionNotFound)
    else if store.suggestions[id].status != Pending then Err(AlreadyProcessed)
    else Ok(store.(suggestions := store.suggestions[id := store.suggestions[id].(status := Status.Rejected)]))
  }

  // ---------------------------------------------------------------------------
  // Bulk handlers

  /** A fetched suggestion together with its identifier. */
  datatype Entry = Entry(id: Id, suggestion: Suggestion)

  function StartIndex(e: Entry): int { e.suggestion.startIndex }

  function ApplyEntry(content: Content, e: Entry): Content { ApplySuggestion(content, e.suggestion) }

  /** The identifier exists, is pending and belongs to the document: the bulk handlers' filter. */
  predicate Keep(suggestions: map<Id, Suggestion>, documentId: Id, k: Id) {
    k in suggestions && suggestions[k].status == Pending && suggestions[k].documentId == documentId
  }

  /** Some given identifier passes the bulk handlers' filter. */
  predicate AnyKept(suggestions: map<Id, Suggestion>, documentId: Id, ids: seq<Id>) {
    exists k :: k in ids && Keep(suggestions, documentId, k)
  }

  function Ids(entries: seq<Entry>): set<Id> {
    set i | 0 <= i < |entries| :: entries[i].id
  }

  /**
    The suggestions `bulkAcceptSuggestions` keeps, in the order of the
    identifiers it was given; an identifier given twice is kept twice.
   */
  function Fetched(suggestions: map<Id, Suggestion>, documentId: Id, ids: seq<Id>): (r: seq<Entry>)
    ensures |r| <= |ids|
    ensures forall i :: 0 <= i < |r| ==>
      Keep(suggestions, documentId, r[i].id) && r[i].suggestion == suggestions[r[i].id]
    ensures Ids(r) == set k | k in ids && Keep(suggestions, documentId, k)
    decreases |ids|
  {
    if |ids| == 0 then []
    else
      var rest := Fetched(suggestions, documentId, ids[1..]);
      var head := if Keep(suggestions, documentId, ids[0]) then [Entry(ids[0], suggestions[ids[0]])] else [];
      IdsAppend(head, rest);
      assert Ids(head) == if Keep(suggestions, documentId, ids[0]) then {ids[0]} else {} by {
        if Keep(suggestions, documentId, ids[0]) {
          assert head[0].id == ids[0];
        }
      }
      assert forall k :: k in ids <==> k == ids[0] || k in ids[1..];
      head + rest
  }

  lemma IdsAppend(a: seq<Entry>, b: seq<Entry>)
    ensures Ids(a + b) == Ids(a) + Ids(b)
  {
    var ab := a + b;
    forall k | k in Ids(ab) ensures k in Ids(a) + Ids(b) {
      var i :| 0 <= i < |ab| && ab[i].id == k;
      if i >= |a| {
        assert b[i - |a|].id == k;
      }
    }
    forall k | k in Ids(a) + Ids(b) ensures k in Ids(ab) {
      if k in Ids(a) {
        var i :| 0 <= i < |a| && a[i].id == k;
        assert ab[i].id == k;
      } else {
        var i :| 0 <= i < |b| && b[i].id == k;
        assert ab[|a| + i].id == k;
      }
    }
  }

  /** Reordering entries keeps their identifiers. */
  lemma IdsOfPermutation(a: seq<Entry>, b: seq<Entry>)
    requires multiset(a) == multiset(b)
    ensures Ids(a) == Ids(b)
  {
    forall i | 0 <= i < |a| ensures a[i].id in Ids(b) {
      assert a[i] in multiset(b);
      var j :| 0 <= j < |b| && b[j] == a[i];
    }
    forall i | 0 <= i < |b| ensures b[i].id in Ids(a) {
      assert b[i] in multiset(a);
      var j :| 0 <= j < |a| && a[j] == b[i];
    }
  }

  /** The statuses after the bulk accept loop patched each entry in turn. */
  function MarkAccepted(suggestions: map<Id, Suggestion>, entries: seq<Entry>): (r: map<Id, Suggestion>)
    requires forall i :: 0 <= i < |entries| ==> entries[i].id in suggestions
    ensures r.Keys == suggestions.Keys
    ensures forall k :: k in suggestions ==>
      r[k] == (if k in Ids(entries) then suggestions[k].(status := Accepted) else suggestions[k])
    decreases |entries|
  {
    if |entries| == 0 then suggestions
    else
      var k := entries[0].id;
      var next := suggestions[k := suggestions[k].(status := Accepted)];
      var rest := entries[1..];
      assert Ids(entries) == {k} + Ids(rest) by {
        assert forall i :: 0 <= i < |rest| ==> rest[i] == entries[i + 1];
        assert forall i :: 1 <= i < |entries| ==> entries[i] == rest[i - 1];
      }
      MarkAccepted(next, rest)
  }

  /**
    The fetch keeps the given order and repeats: fetching a concatenation is
    concatenating the fetches, as `ids.map(get)` followed by `filter` does.
   */
  lemma {:induction false} FetchedAppend(suggestions: map<Id, Suggestion>, documentId: Id, a: seq<Id>, b: seq<Id>)
    ensures Fetched(suggestions, documentId, a + b) == Fetched(suggestions, documentId, a) + Fetched(suggestions, documentId, b)
    decreases |a|
  {
    if |a| == 0 {
      assert a + b == b;
    } else {
      assert (a + b)[1..] == a[1..] + b;
      FetchedAppend(suggestions, documentId, a[1..], b);
    }
  }

  /** One identifier yields its stored suggestion when it passes the filter, and nothing otherwise. */
  lemma FetchedOne(suggestions: map<Id, Suggestion>, documentId: Id, k: Id)
    ensures Fetched(suggestions, documentId, [k])
            == if Keep(suggestions, documentId, k) then [Entry(k, suggestions[k])] else []
  {
    assert [k][1..] == [];
  }

  /** The order in which `bulkAcceptSuggestions` applies what it kept. */
  function BulkOrder(store: Store, documentId: Id, ids: seq<Id>): seq<Entry> {
    Sorting.SortDesc(Fetched(store.suggestions, documentId, ids), StartIndex)
  }

  /**
    `bulkAcceptSuggestions`: keeps the pending suggestions of the document,
    applies them from the highest `startIndex` down to the working text,
    marks each accepted and writes the result to the document.
   */
  function BulkAccept(store: Store, auth: Option<Identity>, documentId: Id, ids: seq<Id>, now: int): (r: Result<Store>)
    ensures r.Ok? <==>
      && auth.Some?
      && documentId in store.documents
      && AnyKept(store.suggestions, documentId, ids)
    ensures auth.None? ==> r == Err(Unauthorized)
    ensures auth.Some? && documentId !in store.documents ==> r == Err(DocumentNotFound)
    ensures auth.Some? && documentId in store.documents && r.Err? ==> r.error == NoValidPendingSuggestions
    ensures r.Ok? ==>
      var d := store.documents[documentId];
      && r.value.documents.Keys == store.documents.Keys
      && r.value.documents[documentId]
         == Written(d, ApplyEach(WorkingText(d), BulkOrder(store, documentId, ids), ApplyEntry), auth.value, now)
      && (forall k :: k in store.documents && k != documentId ==> r.value.documents[k] == store.documents[k])
    ensures r.Ok? ==>
      && r.value.suggestions.Keys == store.suggestions.Keys
      && (forall k :: k in store.suggestions ==>
            r.value.suggestions[k]
            == (if k in ids && Keep(store.suggestions, documentId, k)
                then store.suggestions[k].(status := Accepted) else store.suggestions[k]))
  {
    if auth.None? then Err(Unauthorized)
    else if documentId !in store.documents then Err(DocumentNotFound)
    else
      var order := BulkOrder(store, documentId, ids);
      BulkOrderEmpty(store, documentId, ids);
      if |order| == 0 then Err(NoValidPendingSuggestions)
      else
        var d := store.documents[documentId];
        var text := ApplyEach(WorkingText(d), order, ApplyEntry);
        Ok(Store(store.documents[documentId := Written(d, text, auth.value, now)],
                 BulkAccepted(store, documentId, ids)))
  }

  /** The statuses after the bulk accept loop: exactly the kept suggestions become accepted. */
  function BulkAccepted(store: Store, documentId: Id, ids: seq<Id>): (r: map<Id, Suggestion>)
    ensures r.Keys == store.suggestions.Keys
    ensures forall k :: k in store.suggestions ==>
      r[k] == (if k in ids && Keep(store.suggestions, documentId, k)
               then store.suggestions[k].(status := Accepted) else store.suggestions[k])
  {
    BulkOrderIds(store, documentId, ids);
    MarkAccepted(store.suggestions, BulkOrder(store, documentId, ids))
  }

  /**
    An identifier given twice is fetched twice and its suggestion applied
    twice: `bulkAcceptSuggestions` does not remove repeated identifiers.
   */
  lemma {:induction false} RepeatedIdAppliedTwice(store: Store, auth: Option<Identity>, documentId: Id, k: Id, now: int)
    requires auth.Some? && documentId in store.documents
    requires Keep(store.suggestions, documentId, k)
    ensures var e := Entry(k, store.suggestions[k]);
      var r := BulkAccept(store, auth, documentId, [k, k], now);
      && r.Ok?
      && r.value.documents[documentId].content
         == Some(ApplyEntry(ApplyEntry(WorkingText(store.documents[documentId]), e), e))
  {
    var e := Entry(k, store.suggestions[k]);
    var ids := [k, k];
    assert ids[1..] == [k] && ids[1..][1..] == [];
    assert Fetched(store.suggestions, documentId, [k]) == [e];
    assert Fetched(store.suggestions, documentId, ids) == [e, e];
    Sorting.SortDescOfSorted([e, e], StartIndex);
    assert BulkOrder(store, documentId, ids) == [e, e];
    assert k in ids;
    var text := WorkingText(store.documents[documentId]);
    var once := ApplyEntry(text, e);
    assert [e, e][1..] == [e] && [e][1..] == [];
    assert ApplyEach(once, [e], ApplyEntry) == ApplyEach(ApplyEntry(once, e), [], ApplyEntry);
    assert ApplyEach(text, [e, e], ApplyEntry) == ApplyEach(once, [e], ApplyEntry);
  }

  /** Nothing is left to apply exactly when no given identifier passes the filter. */
  lemma BulkOrderEmpty(store: Store, documentId: Id, ids: seq<Id>)
    ensures |BulkOrder(store, documentId, ids)| == 0 <==> !AnyKept(store.suggestions, documentId, ids)
  {
    BulkOrderIds(store, documentId, ids);
  }

  /** The bulk accept order holds an entry for exactly the given identifiers that pass the filter. */
  lemma BulkOrderIds(store: Store, documentId: Id, ids: seq<Id>)
    ensures var order := BulkOrder(store, documentId, ids);
      && (forall i :: 0 <= i < |order| ==> order[i].id in store.suggestions)
      && (forall i :: 0 <= i < |order| ==> order[i].suggestion == store.suggestions[order[i].id])
      && (forall k :: k in Ids(order) <==> k in ids && Keep(store.suggestions, documentId, k))
      && (|order| == 0 <==> !exists k :: k in ids && Keep(store.suggestions, documentId, k))
  {
    var kept := Fetched(store.suggestions, documentId, ids);
    var order := BulkOrder(store, documentId, ids);
    IdsOfPermutation(order, kept);
    forall i | 0 <= i < |order|
      ensures order[i].id in store.suggestions && order[i].suggestion == store.suggestions[order[i].id]
    {
      assert order[i] in multiset(kept);
      var m :| 0 <= m < |kept| && kept[m] == order[i];
    }
    if |order| > 0 {
      assert order[0].id in Ids(order);
    }
  }

  /** The statuses after the bulk reject loop looked at each identifier in turn. */
  function RejectEach(suggestions: map<Id, Suggestion>, documentId: Id, ids: seq<Id>): (r: map<Id, Suggestion>)
    ensures r.Keys == suggestions.Keys
    ensures forall k :: k in suggestions ==>
      r[k] == (if k in ids && Keep(suggestions, documentId, k)
               then suggestions[k].(status := Status.Rejected) else suggestions[k])
    decreases |ids|
  {
    if |ids| == 0 then suggestions
    else
      var k := ids[0];
      var next := if Keep(suggestions, documentId, k) then suggestions[k := suggestions[k].(status := Status.Rejected)]
                  else suggestions;
      assert forall j :: j in ids <==> j == k || j in ids[1..];
      RejectEach(next, documentId, ids[1..])
  }

  /**
    `bulkRejectSuggestions`: exactly the given suggestions that are pending
    and belong to the document become rejected. Only sign-in is checked.
   */
  function BulkReject(store: Store, auth: Option<Identity>, documentId: Id, ids: seq<Id>): (r: Result<Store>)
    ensures r.Ok? <==> auth.Some?
    ensures r.Err? ==> r.error == Unauthorized
    ensures r.Ok? ==>
      && r.value.documents == store.documents
      && r.value.suggestions.Keys == store.suggestions.Keys
      && (forall k :: k in store.suggestions ==>
            r.value.suggestions[k]
            == (if k in ids && Keep(store.suggestions, documentId, k)
                then store.suggestions[k].(status := Status.Rejected) else store.suggestions[k]))
  {
    if auth.None? then Err(Unauthorized)
    else Ok(store.(suggestions := RejectEach(store.suggestions, documentId, ids)))
  }

  // ---------------------------------------------------------------------------
  // Properties across calls

  /** A suggestion is decided once: after an accept, neither accept nor reject goes through. */
  lemma DecidedOnce(store: Store, auth: Option<Identity>, id: Id, now: int, later: int)
    requires MayAccept(store, auth, id)
    ensures var after := AcceptSuggestion(store, auth, id, now).value;
      && AcceptSuggestion(after, auth, id, later) == Err(AlreadyProcessed)
      && RejectSuggestion(after, auth, id) == Err(AlreadyProcessed)
  {
  }

  /** After a reject, neither accept nor reject goes through. */
  lemma RejectedOnce(store: Store, auth: Option<Identity>, id: Id, now: int)
    requires MayReject(store, auth, id)
    ensures var after := RejectSuggestion(store, auth, id).value;
      && AcceptSuggestion(after, auth, id, now) == Err(AlreadyProcessed)
      && RejectSuggestion(after, auth, id) == Err(AlreadyProcessed)
  {
  }

  /**
    For indices inside the working text, the accepted content is the
    working text with `[startIndex, endIndex)` edited: the text before
    `startIndex` is kept, the suggested text follows, and the text from
    `endIndex` on (from `startIndex` on, for an insertion) closes it.
   */
  lemma AcceptEditsWorkingText(store: Store, auth: Option<Identity>, id: Id, now: int)
    requires MayAccept(store, auth, id)
    requires var s := store.suggestions[id];
      0 <= s.startIndex <= s.endIndex <= |WorkingText(store.documents[s.documentId])|
    ensures var s := store.suggestions[id];
      var w := WorkingText(store.documents[s.documentId]);
      var tail := if s.kind == InsertText then w[s.startIndex..] else w[s.endIndex..];
      var added := if s.kind == DeleteText then [] else s.suggestedText;
      AcceptSuggestion(store, auth, id, now).value.documents[s.documentId].content
        == Some(w[..s.startIndex] + added + tail)
  {
    var s := store.suggestions[id];
    ApplyInBounds(WorkingText(store.documents[s.documentId]), s);
  }

  /** Inside the text, a suggestion keeps what precedes its span and what follows it. */
  lemma ApplyInBounds(content: Content, s: Suggestion)
    requires 0 <= s.startIndex <= s.endIndex <= |content|
    ensures ApplySuggestion(content, s)
      == content[..s.startIndex]
         + (if s.kind == DeleteText then [] else s.suggestedText)
         + content[(if s.kind == InsertText then s.startIndex else s.endIndex)..]
  {
    match s.kind
    case InsertText =>
    case DeleteText =>
      assert content[..s.startIndex] + [] == content[..s.startIndex];
    case ReplaceText =>
  }

  /** Rejecting one pending suggestion alone is the bulk reject of just that identifier. */
  lemma RejectIsBulkRejectOfOne(store: Store, auth: Option<Identity>, id: Id)
    requires MayReject(store, auth, id)
    ensures RejectSuggestion(store, auth, id) == BulkReject(store, auth, store.suggestions[id].documentId, [id])
  {
    var a := RejectSuggestion(store, auth, id).value;
    var b := BulkReject(store, auth, store.suggestions[id].documentId, [id]).value;
    assert a.suggestions == b.suggestions;
  }

  /** Bulk rejecting the same identifiers twice is rejecting them once. */
  lemma BulkRejectIdempotent(store: Store, auth: Option<Identity>, documentId: Id, ids: seq<Id>)
    requires auth.Some?
    ensures var once := BulkReject(store, auth, documentId, ids).value;
      BulkReject(once, auth, documentId, ids) == Ok(once)
  {
    var once := BulkReject(store, auth, documentId, ids).value;
    var twice := BulkReject(once, auth, documentId, ids).value;
    assert twice.suggestions == once.suggestions;
  }

  /**
    The bulk accept order: exactly the kept suggestions, highest
    `startIndex` first, and suggestions with the same `startIndex` in the
    order their identifiers were given.
   */
  lemma BulkOrderIsSorted(store: Store, documentId: Id, ids: seq<Id>, start: int)
    ensures var order := BulkOrder(store, documentId, ids);
      var kept := Fetched(store.suggestions, documentId, ids);
      && multiset(order) == multiset(kept)
      && (forall i, j :: 0 <= i < j < |order| ==> order[i].suggestion.startIndex >= order[j].suggestion.startIndex)
      && Sorting.KeyClass(order, StartIndex, start) == Sorting.KeyClass(kept, StartIndex, start)
  {
    var kept := Fetched(store.suggestions, documentId, ids);
    Sorting.SortDescStable(kept, StartIndex, start);
    assert Sorting.NonIncreasing(BulkOrder(store, documentId, ids), StartIndex);
  }

  /**
    Each splice only alters text at or after its own `startIndex`: when every
    kept suggestion starts at or after `k`, the first `k` characters of the
    working text survive the bulk accept.
   */
  lemma BulkAcceptKeepsPrefix(store: Store, auth: Option<Identity>, documentId: Id, ids: seq<Id>, now: int, k: nat)
    requires BulkAccept(store, auth, documentId, ids, now).Ok?
    requires k <= |WorkingText(store.documents[documentId])|
    requires forall j :: j in ids && Keep(store.suggestions, documentId, j) ==> store.suggestions[j].startIndex >= k
    ensures var w := WorkingText(store.documents[documentId]);
      var text := BulkAccept(store, auth, documentId, ids, now).value.documents[documentId].content.value;
      k <= |text| && text[..k] == w[..k]
  {
    var order := BulkOrder(store, documentId, ids);
    var d := store.documents[documentId];
    var text := ApplyEach(WorkingText(d), order, ApplyEntry);
    BulkOrderStartsAtLeast(store, documentId, ids, k);
    EntriesKeepPrefix(order, k);
    ApplyEachKeepsPrefix(WorkingText(d), order, ApplyEntry, k);
    assert BulkAccept(store, auth, documentId, ids, now).value.documents[documentId] == Written(d, text, auth.value, now);
  }

  /** When every kept suggestion starts at or after `k`, so does every entry of the bulk accept order. */
  lemma BulkOrderStartsAtLeast(store: Store, documentId: Id, ids: seq<Id>, k: int)
    requires forall j :: j in ids && Keep(store.suggestions, documentId, j) ==> store.suggestions[j].startIndex >= k
    ensures var order := BulkOrder(store, documentId, ids);
      forall i :: 0 <= i < |order| ==> order[i].suggestion.startIndex >= k
  {
    var order := BulkOrder(store, documentId, ids);
    BulkOrderIds(store, documentId, ids);
    forall i | 0 <= i < |order|
      ensures order[i].suggestion.startIndex >= k
    {
      assert order[i].id in Ids(order);
    }
  }

  /** Entries that all start at or after `k` each keep the first `k` characters of any text. */
  lemma EntriesKeepPrefix(order: seq<Entry>, k: nat)
    requires forall i :: 0 <= i < |order| ==> order[i].suggestion.startIndex >= k
    ensures forall d: Content, i :: 0 <= i < |order| && k <= |d| ==>
      k <= |ApplyEntry(d, order[i])| && ApplyEntry(d, order[i])[..k] == d[..k]
  {
    forall d: Content, i | 0 <= i < |order| && k <= |d|
      ensures k <= |ApplyEntry(d, order[i])| && ApplyEntry(d, order[i])[..k] == d[..k]
    {
      SpliceKeepsPrefix(d, order[i].suggestion, k);
    }
  }

  lemma SpliceKeepsPrefix(d: Content, s: Suggestion, k: nat)
    requires k <= |d| && k <= s.startIndex
    ensures k <= |ApplySuggestion(d, s)| && ApplySuggestion(d, s)[..k] == d[..k]
  {
    var a := SliceIndex(s.startIndex, |d|);
    assert k <= a;
    assert d[..a][..k] == d[..k];
  }

  // ---------------------------------------------------------------------------
  // Position safety of the bulk accept

  /** The span a suggestion edits, in the coordinates of the text it was made for. */
  function EditSpan(s: Suggestion): Span {
    match s.kind
    case InsertText => Span(s.startIndex, s.startIndex, s.suggestedText)
    case DeleteText => Span(s.startIndex, s.endIndex, [])
    case ReplaceText => Span(s.startIndex, s.endIndex, s.suggestedText)
  }

  function EntrySpan(e: Entry): Span { EditSpan(e.suggestion) }

  /** Two suggestions start at different indices and their spans do not overlap. */
  predicate Disjoint(a: Entry, b: Entry) {
    && EntrySpan(a).lo != EntrySpan(b).lo
    && (EntrySpan(a).hi <= EntrySpan(b).lo || EntrySpan(b).hi <= EntrySpan(a).lo)
  }

  /** A suggestion whose span fits the text is the plain replacement of that span. */
  lemma ApplySuggestionReplaces(d: Content, s: Suggestion)
    requires Fits(d, EditSpan(s))
    ensures ApplySuggestion(d, s) == Replace(d, EditSpan(s))
  {
  }

  lemma EntriesReplace(order: seq<Entry>)
    ensures forall d: Content, i :: 0 <= i < |order| && Fits(d, EntrySpan(order[i])) ==>
              ApplyEntry(d, order[i]) == Replace(d, EntrySpan(order[i]))
  {
    forall d: Content, i | 0 <= i < |order| && Fits(d, EntrySpan(order[i]))
      ensures ApplyEntry(d, order[i]) == Replace(d, EntrySpan(order[i]))
    {
      ApplySuggestionReplaces(d, order[i].suggestion);
    }
  }

  /**
    Position safety of `bulkAcceptSuggestions`: when the kept suggestions
    fit the working text and are pairwise disjoint, applying them from the
    highest `startIndex` down writes the working text read left to right
    with each span replaced, in ascending order.
   */
  lemma BulkAcceptReplacesSpans(store: Store, auth: Option<Identity>, documentId: Id, ids: seq<Id>, now: int)
    requires BulkAccept(store, auth, documentId, ids, now).Ok?
    requires var kept := Fetched(store.suggestions, documentId, ids);
      && (forall i :: 0 <= i < |kept| ==> Fits(WorkingText(store.documents[documentId]), EntrySpan(kept[i])))
      && Sorting.Pairwise(kept, Disjoint)
    ensures var ascending := Sorting.Reverse(BulkOrder(store, documentId, ids));
      && multiset(ascending) == multiset(Fetched(store.suggestions, documentId, ids))
      && BulkAccept(store, auth, documentId, ids, now).value.documents[documentId].content
         == Some(Rebuild(WorkingText(store.documents[documentId]), 0, Spans(ascending, EntrySpan)))
  {
    SortedEntriesRebuild(WorkingText(store.documents[documentId]), Fetched(store.suggestions, documentId, ids));
  }

  lemma SortedEntriesRebuild(w: Content, kept: seq<Entry>)
    requires forall i :: 0 <= i < |kept| ==> Fits(w, EntrySpan(kept[i]))
    requires Sorting.Pairwise(kept, Disjoint)
    ensures var order := Sorting.SortDesc(kept, StartIndex);
      && multiset(Sorting.Reverse(order)) == multiset(kept)
      && ApplyEach(w, order, ApplyEntry) == Rebuild(w, 0, Spans(Sorting.Reverse(order), EntrySpan))
  {
    var order := Sorting.SortDesc(kept, StartIndex);
    BulkOrderIsDescendingChain(w, kept);
    EntriesReplace(order);
    ApplyEachDescendingRebuilds(w, order, ApplyEntry, EntrySpan);
    ReverseSpans(order, EntrySpan);
    Sorting.ReverseMultiset(order);
  }

  lemma BulkOrderIsDescendingChain(w: Content, kept: seq<Entry>)
    requires forall i :: 0 <= i < |kept| ==> Fits(w, EntrySpan(kept[i]))
    requires Sorting.Pairwise(kept, Disjoint)
    ensures forall i :: 0 <= i < |kept| ==> Fits(w, EntrySpan(Sorting.SortDesc(kept, StartIndex)[i]))
    ensures forall i, j :: 0 <= i < j < |kept| ==>
      EntrySpan(Sorting.SortDesc(kept, StartIndex)[j]).hi <= EntrySpan(Sorting.SortDesc(kept, StartIndex)[i]).lo
  {
    var order := Sorting.SortDesc(kept, StartIndex);
    SortedEntriesFit(w, kept, order);
    Sorting.SortDescPairwise(kept, StartIndex, Disjoint);
    DisjointDescendingChain(order);
  }

  lemma SortedEntriesFit(w: Content, kept: seq<Entry>, order: seq<Entry>)
    requires forall i :: 0 <= i < |kept| ==> Fits(w, EntrySpan(kept[i]))
    requires multiset(order) == multiset(kept)
    ensures forall i :: 0 <= i < |order| ==> Fits(w, EntrySpan(order[i]))
  {
    forall i | 0 <= i < |order|
      ensures Fits(w, EntrySpan(order[i]))
    {
      assert order[i] in multiset(kept);
    }
  }

  /** Pairwise disjoint suggestions in non-increasing start order each lie before every earlier one. */
  lemma DisjointDescendingChain(order: seq<Entry>)
    requires Sorting.Pairwise(order, Disjoint)
    requires Sorting.NonIncreasing(order, StartIndex)
    requires forall i :: 0 <= i < |order| ==> EntrySpan(order[i]).lo <= EntrySpan(order[i]).hi
    ensures forall i, j :: 0 <= i < j < |order| ==> EntrySpan(order[j]).hi <= EntrySpan(order[i]).lo
  {
    forall i, j | 0 <= i < j < |order|
      ensures EntrySpan(order[j]).hi <= EntrySpan(order[i]).lo
    {
      assert Disjoint(order[i], order[j]);
      assert StartIndex(order[i]) >= StartIndex(order[j]);
    }
  }
}
