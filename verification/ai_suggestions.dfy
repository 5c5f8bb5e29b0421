/**
  The AI suggestion handlers: `create`, `accept`, `reject` and
  `clearPending`. A suggestion carries the change groups computed against
  the document's content; accepting it rewrites the content through the
  change-group applier.
 */
module AiSuggestions {
  import opened Text
  import opened Schema
  import opened ChangeGroups

  datatype Status = Pending | Accepted | Rejected

  datatype AiSuggestion = AiSuggestion(
    documentId: Id,
    userId: string,
    status: Status,
    changeGroups: seq<ChangeGroup>,
    createdAt: int)

  datatype Store = Store(documents: map<Id, Document>, suggestions: map<Id, AiSuggestion>)

  /** The caller is signed in and owns the document. */
  predicate Owns(store: Store, auth: Option<Identity>, documentId: Id) {
    && auth.Some?
    && documentId in store.documents
    && store.documents[documentId].userId == Some(auth.value.subject)
  }

  /** The suggestion exists and the caller owns its document. */
  predicate MayDecide(store: Store, auth: Option<Identity>, suggestionId: Id) {
    && suggestionId in store.suggestions
    && Owns(store, auth, store.suggestions[suggestionId].documentId)
  }

  /** The error of the checks shared by `accept` and `reject`, in the order they are made. */
  function DecideError(store: Store, auth: Option<Identity>, suggestionId: Id): Error
    requires !MayDecide(store, auth, suggestionId)
  {
    if auth.None? then NotAuthenticated
    else if suggestionId !in store.suggestions then SuggestionNotFound
    else if store.suggestions[suggestionId].documentId !in store.documents then DocumentNotFound
    else UnauthorizedAccess
  }

  /** `create`: stores a pending suggestion for a document the caller owns. */
  function Create(store: Store, auth: Option<Identity>, id: Id, documentId: Id, userId: string,
                  changeGroups: seq<ChangeGroup>, now: int): (r: Result<Store>)
    requires id !in store.suggestions
    ensures r.Ok? <==> Owns(store, auth, documentId)
    ensures auth.None? ==> r == Err(NotAuthenticated)
    ensures auth.Some? && documentId !in store.documents ==> r == Err(DocumentNotFound)
    ensures auth.Some? && documentId in store.documents ==>
      (store.documents[documentId].userId != Some(auth.value.subject) ==> r == Err(UnauthorizedAccess))
    ensures r.Ok? ==>
      && r.value.documents == store.documents
      && r.value.suggestions.Keys == store.suggestions.Keys + {id}
      && r.value.suggestions[id] == AiSuggestion(documentId, userId, Pending, changeGroups, now)
      && (forall k :: k in store.suggestions ==> r.value.suggestions[k] == store.suggestions[k])
  {
    if auth.None? then Err(NotAuthenticated)
    else if documentId !in store.documents then Err(DocumentNotFound)
    else if store.documents[documentId].userId != Some(auth.value.subject) then Err(UnauthorizedAccess)
    else Ok(store.(suggestions := store.suggestions[id := AiSuggestion(documentId, userId, Pending, changeGroups, now)]))
  }

  /**
    `accept`: marks the suggestion accepted, whatever its status was, and
    writes the document's content with every change group applied.
   */
  function Accept(store: Store, auth: Option<Identity>, suggestionId: Id, now: int): (r: Result<Store>)
    ensures r.Ok? <==> MayDecide(store, auth, suggestionId)
    ensures r.Err? ==> r.error == DecideError(store, auth, suggestionId)
    ensures r.Ok? ==>
      var s := store.suggestions[suggestionId];
      var d := store.documents[s.documentId];
      && r.value.suggestions.Keys == store.suggestions.Keys
      && r.value.suggestions[suggestionId] == s.(status := Accepted)
      && (forall k :: k in store.suggestions && k != suggestionId ==> r.value.suggestions[k] == store.suggestions[k])
      && r.value.documents.Keys == store.documents.Keys
      && r.value.documents[s.documentId]
         == d.(content := Some(ApplyChangeGroups(OrEmpty(d.content), s.changeGroups)), updatedAt := now)
      && (forall k :: k in store.documents && k != s.documentId ==> r.value.documents[k] == store.documents[k])
  {
    if !MayDecide(store, auth, suggestionId) then Err(DecideError(store, auth, suggestionId))
    else
      var s := store.suggestions[suggestionId];
      var d := store.documents[s.documentId];
      var content := ApplyChangeGroups(OrEmpty(d.content), s.changeGroups);
      Ok(Store(store.documents[s.documentId := d.(content := Some(content), updatedAt := now)],
               store.suggestions[suggestionId := s.(status := Accepted)]))
  }

  /** `reject`: marks the suggestion rejected, whatever its status was; no document changes. */
  function Reject(store: Store, auth: Option<Identity>, suggestionId: Id): (r: Result<Store>)
    ensures r.Ok? <==> MayDecide(store, auth, suggestionId)
    ensures r.Err? ==> r.error == DecideError(store, auth, suggestionId)
    ensures r.Ok? ==>
      && r.value.documents == store.documents
      && r.value.suggestions.Keys == store.suggestions.Keys
      && r.value.suggestions[suggestionId] == store.suggestions[suggestionId].(status := Status.Rejected)
      && (forall k :: k in store.suggestions && k != suggestionId ==> r.value.suggestions[k] == store.suggestions[k])
  {
    if !MayDecide(store, auth, suggestionId) then Err(DecideError(store, auth, suggestionId))
    else
      var s := store.suggestions[suggestionId];
      Ok(store.(suggestions := store.suggestions[suggestionId := s.(status := Status.Rejected)]))
  }

  /** What `clearPending` does to one suggestion. */
  function Cleared(s: AiSuggestion, documentId: Id): AiSuggestion {
    if s.documentId == documentId && s.status == Pending then s.(status := Status.Rejected) else s
  }

  /**
    `clearPending`: every pending suggestion of the document becomes
    rejected. Only sign-in is checked, not ownership of the document.
   */
  function ClearPending(store: Store, auth: Option<Identity>, documentId: Id): (r: Result<Store>)
    ensures r.Ok? <==> auth.Some?
    ensures r.Err? ==> r.error == NotAuthenticated
    ensures r.Ok? ==>
      && r.value.documents == store.documents
      && r.value.suggestions.Keys == store.suggestions.Keys
      && forall k :: k in store.suggestions ==>
           var s := store.suggestions[k];
           r.value.suggestions[k] == (if s.documentId == documentId && s.status == Pending then s.(status := Status.Rejected) else s)
  {
    if auth.None? then Err(NotAuthenticated)
    else Ok(store.(suggestions := map k | k in store.suggestions :: Cleared(store.suggestions[k], documentId)))
  }

  // ---------------------------------------------------------------------------
  // Properties across calls

  /** No pending suggestion of the document is left, and every other suggestion keeps its status. */
  lemma ClearPendingLeavesNonePending(store: Store, identity: Identity, documentId: Id)
    ensures var r := ClearPending(store, Some(identity), documentId);
      && r.Ok?
      && (forall k :: k in r.value.suggestions && r.value.suggestions[k].documentId == documentId ==>
            r.value.suggestions[k].status != Pending)
      && (forall k :: k in store.suggestions && store.suggestions[k].documentId != documentId ==>
            r.value.suggestions[k] == store.suggestions[k])
  {
  }

  /** Clearing twice is clearing once. */
  lemma ClearPendingIdempotent(store: Store, identity: Identity, documentId: Id)
    ensures var once := ClearPending(store, Some(identity), documentId).value;
      ClearPending(once, Some(identity), documentId) == Ok(once)
  {
    var once := ClearPending(store, Some(identity), documentId).value;
    var twice := ClearPending(once, Some(identity), documentId).value;
    assert twice.suggestions == once.suggestions by {
      forall k | k in once.suggestions
        ensures twice.suggestions[k] == once.suggestions[k]
      {
      }
    }
  }

  /**
    `accept` does not look at the status: a suggestion already accepted or
    rejected is applied again exactly as a pending one would be.
   */
  lemma AcceptIgnoresStatus(store: Store, auth: Option<Identity>, suggestionId: Id, status: Status, now: int)
    requires suggestionId in store.suggestions
    ensures var other := store.(suggestions := store.suggestions[suggestionId := store.suggestions[suggestionId].(status := status)]);
      Accept(other, auth, suggestionId, now) == Accept(store, auth, suggestionId, now)
  {
    var s := store.suggestions[suggestionId];
    var other := store.(suggestions := store.suggestions[suggestionId := s.(status := status)]);
    assert other.suggestions[suggestionId := s.(status := Accepted)] == store.suggestions[suggestionId := s.(status := Accepted)];
  }

  /** With no change groups the content written is the stored content, an absent one read as empty. */
  lemma AcceptWithoutGroups(store: Store, auth: Option<Identity>, suggestionId: Id, now: int)
    requires MayDecide(store, auth, suggestionId)
    requires store.suggestions[suggestionId].changeGroups == []
    ensures var s := store.suggestions[suggestionId];
      Accept(store, auth, suggestionId, now).value.documents[s.documentId].content
        == Some(OrEmpty(store.documents[s.documentId].content))
  {
  }

  /**
    Position safety of `accept`: groups that are well formed, inside the
    content and pairwise apart, stored in any order, leave the content with
    each group's span replaced by its inserted text, read left to right.
   */
  lemma AcceptReplacesSpans(store: Store, auth: Option<Identity>, suggestionId: Id, now: int)
    requires MayDecide(store, auth, suggestionId)
    requires var s := store.suggestions[suggestionId];
      var content := OrEmpty(store.documents[s.documentId].content);
      && (forall i :: 0 <= i < |s.changeGroups| ==>
            WellFormed(s.changeGroups[i]) && s.changeGroups[i].endPos <= |content|)
      && Sorting.Pairwise(s.changeGroups, Apart)
    ensures var s := store.suggestions[suggestionId];
      var content := OrEmpty(store.documents[s.documentId].content);
      var ascending := Sorting.Reverse(ProcessingOrder(s.changeGroups));
      && multiset(ascending) == multiset(s.changeGroups)
      && Accept(store, auth, suggestionId, now).value.documents[s.documentId].content
         == Some(Rebuild(content, 0, Spans(ascending, GroupSpan)))
  {
    var s := store.suggestions[suggestionId];
    ApplyChangeGroupsRebuilds(OrEmpty(store.documents[s.documentId].content), s.changeGroups);
  }

  /** A freshly created suggestion, once accepted, applies exactly the groups it was created with. */
  lemma CreateThenAccept(store: Store, auth: Option<Identity>, id: Id, documentId: Id, userId: string,
                         changeGroups: seq<ChangeGroup>, now: int, later: int)
    requires id !in store.suggestions
    requires Owns(store, auth, documentId)
    ensures var created := Create(store, auth, id, documentId, userId, changeGroups, now).value;
      var accepted := Accept(created, auth, id, later);
      && accepted.Ok?
      && accepted.value.suggestions[id].status == Accepted
      && accepted.value.documents[documentId].content
         == Some(ApplyChangeGroups(OrEmpty(store.documents[documentId].content), changeGroups))
  {
  }

  /** Rejecting after a clear changes nothing more than the clear did, beyond the one status. */
  lemma ClearPendingThenReject(store: Store, identity: Identity, documentId: Id, suggestionId: Id)
    requires MayDecide(store, Some(identity), suggestionId)
    requires store.suggestions[suggestionId].documentId == documentId
    requires store.suggestions[suggestionId].status == Pending
    ensures var cleared := ClearPending(store, Some(identity), documentId).value;
      Reject(cleared, Some(identity), suggestionId) == Ok(cleared)
  {
    var cleared := ClearPending(store, Some(identity), documentId).value;
    var again := Reject(cleared, Some(identity), suggestionId).value;
    assert again.suggestions == cleared.suggestions;
  }
}
