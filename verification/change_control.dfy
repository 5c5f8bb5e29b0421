/**
  The change-control handlers: `submitChange`, `approveChange`,
  `rejectChange` and `tweakChange`. A change is one insertion, deletion or
  replacement proposed against a document; approving it splices it into
  the document's content. None of these handlers checks the caller.
 */
module ChangeControl {
  import opened Text
  import opened Schema
  import ChangeDetector

  datatype Status = Pending | Approved | Rejected

  datatype Change = Change(
    documentId: Id,
    userId: string,
    changeType: SpliceKind,
    startIndex: int,
    endIndex: int,
    newText: Content,
    oldText: Content,
    status: Status,
    timestamp: int,
    originalContentSnapshot: Content)

  datatype Store = Store(documents: map<Id, Document>, changes: map<Id, Change>)

  /** `submitChange`: records a pending change with a snapshot of the document's content. */
  function SubmitChange(store: Store, id: Id, documentId: Id, userId: string, changeType: SpliceKind,
                        startIndex: int, endIndex: int, newText: Content, oldText: Content, now: int): (r: Result<Store>)
    requires id !in store.changes
    ensures r.Ok? <==> documentId in store.documents
    ensures r.Err? ==> r.error == DocumentNotFound
    ensures r.Ok? ==>
      && r.value.documents == store.documents
      && r.value.changes.Keys == store.changes.Keys + {id}
      && (forall k :: k in store.changes ==> r.value.changes[k] == store.changes[k])
      && r.value.changes[id]
         == Change(documentId, userId, changeType, startIndex, endIndex, newText, oldText, Pending, now,
                   OrEmpty(store.documents[documentId].content))
  {
    if documentId !in store.documents then Err(DocumentNotFound)
    else
      var snapshot := OrEmpty(store.documents[documentId].content);
      Ok(store.(changes := store.changes[id := Change(documentId, userId, changeType, startIndex, endIndex,
                                                     newText, oldText, Pending, now, snapshot)]))
  }

  /** The splice of one change; an insertion ignores `endIndex`. */
  function ApplyChange(content: Content, c: Change): Content {
    Splice(content, c.changeType, c.startIndex, c.endIndex, c.newText)
  }

  /**
    `approveChange`: the change is spliced into the document's current
    `content` (not into the snapshot) and marked approved. Its status is not
    checked, so an approved or rejected change is applied again.
   */
  function ApproveChange(store: Store, changeId: Id, now: int): (r: Result<Store>)
    ensures r.Ok? <==> changeId in store.changes && store.changes[changeId].documentId in store.documents
    ensures changeId !in store.changes ==> r == Err(ChangeNotFound)
    ensures changeId in store.changes && r.Err? ==> r.error == DocumentNotFound
    ensures r.Ok? ==>
      var c := store.changes[changeId];
      var d := store.documents[c.documentId];
      && r.value.documents.Keys == store.documents.Keys
      && r.value.documents[c.documentId] == d.(content := Some(ApplyChange(OrEmpty(d.content), c)), updatedAt := now)
      && (forall k :: k in store.documents && k != c.documentId ==> r.value.documents[k] == store.documents[k])
      && r.value.changes.Keys == store.changes.Keys
      && r.value.changes[changeId] == c.(status := Status.Approved)
      && (forall k :: k in store.changes && k != changeId ==> r.value.changes[k] == store.changes[k])
  {
    if changeId !in store.changes then Err(ChangeNotFound)
    else
      var c := store.changes[changeId];
      if c.documentId !in store.documents then Err(DocumentNotFound)
      else
        var d := store.documents[c.documentId];
        Ok(Store(store.documents[c.documentId := d.(content := Some(ApplyChange(OrEmpty(d.content), c)), updatedAt := now)],
                 store.changes[changeId := c.(status := Status.Approved)]))
  }

  /** `rejectChange`: only the status changes, whatever it was; the document is untouched. */
  function RejectChange(store: Store, changeId: Id): (r: Result<Store>)
    ensures r.Ok? <==> changeId in store.changes
    ensures r.Err? ==> r.error == ChangeNotFound
    ensures r.Ok? ==>
      && r.value.documents == store.documents
      && r.value.changes.Keys == store.changes.Keys
      && r.value.changes[changeId] == store.changes[changeId].(status := Status.Rejected)
      && (forall k :: k in store.changes && k != changeId ==> r.value.changes[k] == store.changes[k])
  {
    if changeId !in store.changes then Err(ChangeNotFound)
    else Ok(store.(changes := store.changes[changeId := store.changes[changeId].(status := Status.Rejected)]))
  }

  /** A field of the patch: the supplied value, or the current one when none is supplied. */
  function Patched<T>(supplied: Option<T>, current: T): T {
    if supplied.Some? then supplied.value else current
  }

  /**
    `tweakChange`: a pending change gets the supplied `newText`,
    `startIndex` and `endIndex`; every field not supplied, and everything
    else about the change, stays as it was.
   */
  function TweakChange(store: Store, changeId: Id, newText: Option<Content>, startIndex: Option<int>,
                       endIndex: Option<int>): (r: Result<Store>)
    ensures r.Ok? <==> changeId in store.changes && store.changes[changeId].status == Pending
    ensures changeId !in store.changes ==> r == Err(ChangeNotFound)
    ensures changeId in store.changes && r.Err? ==> r.error == NotPending
    ensures r.Ok? ==>
      && r.value.documents == store.documents
      && r.value.changes.Keys == store.changes.Keys
      && (forall k :: k in store.changes && k != changeId ==> r.value.changes[k] == store.changes[k])
      && var c := store.changes[changeId];
      var t := r.value.changes[changeId];
      && (newText.Some? ==> t.newText == newText.value) && (newText.None? ==> t.newText == c.newText)
      && (startIndex.Some? ==> t.startIndex == startIndex.value) && (startIndex.None? ==> t.startIndex == c.startIndex)
      && (endIndex.Some? ==> t.endIndex == endIndex.value) && (endIndex.None? ==> t.endIndex == c.endIndex)
      && t == c.(newText := t.newText, startIndex := t.startIndex, endIndex := t.endIndex)
  {
    if changeId !in store.changes then Err(ChangeNotFound)
    else
      var c := store.changes[changeId];
      if c.status != Pending then Err(NotPending)
      else
        var t := c.(newText := Patched(newText, c.newText),
                    startIndex := Patched(startIndex, c.startIndex),
                    endIndex := Patched(endIndex, c.endIndex));
        Ok(store.(changes := store.changes[changeId := t]))
  }

  // ---------------------------------------------------------------------------
  // Properties across calls

  /** Approving does not look at the status: any prior status gives the same result. */
  lemma ApproveIgnoresStatus(store: Store, changeId: Id, status: Status, now: int)
    requires changeId in store.changes
    ensures var other := store.(changes := store.changes[changeId := store.changes[changeId].(status := status)]);
      ApproveChange(other, changeId, now) == ApproveChange(store, changeId, now)
  {
    var c := store.changes[changeId];
    var other := store.(changes := store.changes[changeId := c.(status := status)]);
    assert other.changes[changeId := c.(status := Status.Approved)] == store.changes[changeId := c.(status := Status.Approved)];
  }

  /** A tweak that supplies nothing changes nothing. */
  lemma TweakNothing(store: Store, changeId: Id)
    requires changeId in store.changes && store.changes[changeId].status == Pending
    ensures TweakChange(store, changeId, None, None, None) == Ok(store)
  {
    assert store.changes[changeId := store.changes[changeId]] == store.changes;
  }

  /** Once a change is decided it can no longer be tweaked. */
  lemma DecidedChangesAreFrozen(store: Store, changeId: Id, now: int, newText: Option<Content>,
                                startIndex: Option<int>, endIndex: Option<int>)
    requires changeId in store.changes && store.changes[changeId].documentId in store.documents
    ensures TweakChange(ApproveChange(store, changeId, now).value, changeId, newText, startIndex, endIndex) == Err(NotPending)
    ensures TweakChange(RejectChange(store, changeId).value, changeId, newText, startIndex, endIndex) == Err(NotPending)
  {
  }

  /** What approval applies after a tweak is the tweaked span and text. */
  lemma TweakThenApprove(store: Store, changeId: Id, newText: Content, startIndex: int, endIndex: int, now: int)
    requires changeId in store.changes && store.changes[changeId].status == Pending
    requires store.changes[changeId].documentId in store.documents
    ensures var c := store.changes[changeId];
      var tweaked := TweakChange(store, changeId, Some(newText), Some(startIndex), Some(endIndex)).value;
      ApproveChange(tweaked, changeId, now).value.documents[c.documentId].content
        == Some(Splice(OrEmpty(store.documents[c.documentId].content), c.changeType, startIndex, endIndex, newText))
  {
  }

  /**
    The editor and the server agree: a change detected between the text the
    editor last saw and the edited text, submitted and then approved while
    the document still holds the text the editor saw, leaves the document
    holding exactly the edited text.
   */
  lemma DetectSubmitApproveRoundTrip(store: Store, id: Id, documentId: Id, userId: string,
                                     previous: Content, edited: Content, now: int, later: int)
    requires id !in store.changes
    requires documentId in store.documents
    requires store.documents[documentId].content == Some(previous)
    requires previous != edited
    ensures var req := ChangeDetector.SubmitRequest(previous, edited).value;
      var submitted := SubmitChange(store, id, documentId, userId, req.changeType, req.startIndex, req.endIndex,
                                    req.newText, req.oldText, now);
      && submitted.Ok?
      && submitted.value.changes[id].originalContentSnapshot == previous
      && ApproveChange(submitted.value, id, later).value.documents[documentId].content == Some(edited)
  {
    ChangeDetector.SubmitRoundTrip(previous, edited);
  }
}
