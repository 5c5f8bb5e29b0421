/**
  The document review handlers: `createDocument`, `updateContent`,
  `approveChange` and `rejectChange`. A document keeps the reviewed
  `originalContent` and the edited `currentContent`; approving promotes
  the edit, rejecting discards it. None of them checks the caller.
 */
module Documents {
  import opened Text
  import opened Schema

  type Documents = map<Id, Document>

  /**
    `createDocument`: a draft whose two texts are the ones given, last
    edited by `userId`, created and updated at `now`. The owner field and
    the accepted content are not set.
   */
  function CreateDocument(docs: Documents, id: Id, originalContent: Content, currentContent: Content,
                          userId: string, now: int): (r: Documents)
    requires id !in docs
    ensures r.Keys == docs.Keys + {id}
    ensures forall k :: k in docs ==> r[k] == docs[k]
    ensures r[id].status == Some(Draft)
    ensures r[id].originalContent == Some(originalContent) && r[id].currentContent == Some(currentContent)
    ensures r[id].lastEditedBy == Some(userId)
    ensures r[id].createdAt == r[id].updatedAt == now
    ensures r[id].userId == None && r[id].content == None
  {
    docs[id := Document(None, None, Some(originalContent), Some(currentContent), Some(Draft), Some(userId), now, now)]
  }

  /** The fields every review handler writes: the status, the editor and the time. */
  function Stamped(d: Document, status: ReviewStatus, userId: string, now: int): Document {
    d.(status := Some(status), lastEditedBy := Some(userId), updatedAt := now)
  }

  /** `updateContent`: the edit becomes the current text and waits for review; the reviewed text stays. */
  function UpdateContent(docs: Documents, id: Id, currentContent: Content, userId: string, now: int): (r: Result<Documents>)
    ensures r.Ok? <==> id in docs
    ensures r.Err? ==> r.error == DocumentNotFound
    ensures r.Ok? ==>
      && r.value.Keys == docs.Keys
      && (forall k :: k in docs && k != id ==> r.value[k] == docs[k])
      && r.value[id].currentContent == Some(currentContent)
      && r.value[id].originalContent == docs[id].originalContent
      && r.value[id].status == Some(PendingReview)
      && r.value[id] == Stamped(docs[id].(currentContent := Some(currentContent)), PendingReview, userId, now)
  {
    if id !in docs then Err(DocumentNotFound)
    else Ok(docs[id := Stamped(docs[id].(currentContent := Some(currentContent)), PendingReview, userId, now)])
  }

  /** `approveChange`: the current text becomes the reviewed text (an absent one clears it). */
  function ApproveChange(docs: Documents, id: Id, userId: string, now: int): (r: Result<Documents>)
    ensures r.Ok? <==> id in docs
    ensures r.Err? ==> r.error == DocumentNotFound
    ensures r.Ok? ==>
      && r.value.Keys == docs.Keys
      && (forall k :: k in docs && k != id ==> r.value[k] == docs[k])
      && r.value[id].originalContent == docs[id].currentContent
      && r.value[id].currentContent == docs[id].currentContent
      && r.value[id].status == Some(Approved)
      && r.value[id] == Stamped(docs[id].(originalContent := docs[id].currentContent), Approved, userId, now)
  {
    if id !in docs then Err(DocumentNotFound)
    else Ok(docs[id := Stamped(docs[id].(originalContent := docs[id].currentContent), Approved, userId, now)])
  }

  /** `rejectChange`: the current text goes back to the reviewed text (an absent one clears it). */
  function RejectChange(docs: Documents, id: Id, userId: string, now: int): (r: Result<Documents>)
    ensures r.Ok? <==> id in docs
    ensures r.Err? ==> r.error == DocumentNotFound
    ensures r.Ok? ==>
      && r.value.Keys == docs.Keys
      && (forall k :: k in docs && k != id ==> r.value[k] == docs[k])
      && r.value[id].currentContent == docs[id].originalContent
      && r.value[id].originalContent == docs[id].originalContent
      && r.value[id].status == Some(Rejected)
      && r.value[id] == Stamped(docs[id].(currentContent := docs[id].originalContent), Rejected, userId, now)
  {
    if id !in docs then Err(DocumentNotFound)
    else Ok(docs[id := Stamped(docs[id].(currentContent := docs[id].originalContent), Rejected, userId, now)])
  }

  // ---------------------------------------------------------------------------
  // The review cycle

  /** The review has settled: the reviewed and the current text agree. */
  predicate Settled(d: Document) {
    d.originalContent == d.currentContent
  }

  /** Either decision settles the document, and an edit unsettles it exactly when it changes the text. */
  lemma DecisionsSettle(docs: Documents, id: Id, userId: string, now: int, text: Content)
    requires id in docs
    ensures Settled(ApproveChange(docs, id, userId, now).value[id])
    ensures Settled(RejectChange(docs, id, userId, now).value[id])
    ensures Settled(UpdateContent(docs, id, text, userId, now).value[id]) <==> docs[id].originalContent == Some(text)
  {
  }

  /** Rejecting an edit gives back the text as it was reviewed, whatever was edited in between. */
  lemma UpdateThenReject(docs: Documents, id: Id, text: Content, editor: string, decidedBy: string, now: int, later: int)
    requires id in docs
    ensures var edited := UpdateContent(docs, id, text, editor, now).value;
      var rejected := RejectChange(edited, id, decidedBy, later).value;
      && rejected[id].currentContent == docs[id].originalContent
      && rejected[id].originalContent == docs[id].originalContent
      && rejected[id].status == Some(Rejected)
  {
  }

  /** Approving an edit makes the edited text the reviewed text. */
  lemma UpdateThenApprove(docs: Documents, id: Id, text: Content, editor: string, decidedBy: string, now: int, later: int)
    requires id in docs
    ensures var edited := UpdateContent(docs, id, text, editor, now).value;
      var approved := ApproveChange(edited, id, decidedBy, later).value;
      && approved[id].originalContent == Some(text)
      && approved[id].currentContent == Some(text)
      && approved[id].status == Some(Approved)
  {
  }

  /** On a settled document the two decisions differ only in the status they record. */
  lemma SettledDecisionsAgree(docs: Documents, id: Id, userId: string, now: int)
    requires id in docs && Settled(docs[id])
    ensures ApproveChange(docs, id, userId, now).value[id]
         == RejectChange(docs, id, userId, now).value[id].(status := Some(Approved))
  {
  }

  /** A freshly created document whose two texts differ is unsettled until it is reviewed. */
  lemma CreateThenReview(docs: Documents, id: Id, originalContent: Content, currentContent: Content,
                         userId: string, now: int, later: int)
    requires id !in docs
    ensures var created := CreateDocument(docs, id, originalContent, currentContent, userId, now);
      && (Settled(created[id]) <==> originalContent == currentContent)
      && ApproveChange(created, id, userId, later).value[id].originalContent == Some(currentContent)
      && RejectChange(created, id, userId, later).value[id].currentContent == Some(originalContent)
  {
  }
}
