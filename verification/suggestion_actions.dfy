/**
  The `generateSuggestions` action. It checks the caller, the API key and
  the size of the text, asks the language model for suggestions, keeps the
  well-formed ones in the order the model gave them, and stores each with
  `createSuggestion`. The model call is a parameter: what the model
  answered, already parsed.
 */
module SuggestionActions {
  import opened Text
  import opened Schema
  import Suggestions

  /** Texts longer than this are refused before the model is asked. */
  const MaxContentLength := 16000

  /**
    One element of the parsed answer. A field the model left out, or gave
    with the wrong JSON type, is `None`; a missing or non-string `type` is a
    string outside the three known ones.
   */
  datatype RawSuggestion = RawSuggestion(
    kind: string,
    startIndex: Option<int>,
    endIndex: Option<int>,
    suggestedText: Option<Content>,
    originalText: Option<Content>)

  /** What the model call produced. */
  datatype Reply =
    | CallFailed                                   // the call itself threw
    | Unparseable(text: string)                    // no JSON array in the text, or it did not parse
    | Parsed(text: string, items: seq<RawSuggestion>)

  /** The arguments of one `createSuggestion` call. */
  datatype Request = Request(kind: SpliceKind, startIndex: int, endIndex: int, suggestedText: Content, originalText: Content)

  function KindOf(name: string): Option<SpliceKind> {
    if name == "insert" then Some(InsertText)
    else if name == "delete" then Some(DeleteText)
    else if name == "replace" then Some(ReplaceText)
    else None
  }

  /** The action's validity test: a known type and numeric indexes with `0 <= start <= end <= |content|`. */
  predicate Valid(x: RawSuggestion, content: Content) {
    && KindOf(x.kind).Some?
    && x.startIndex.Some? && x.endIndex.Some?
    && 0 <= x.startIndex.value
    && x.endIndex.value <= |content|
    && x.startIndex.value <= x.endIndex.value
  }

  /** The request for a valid element; absent texts become empty (`|| ""`). */
  function RequestOf(x: RawSuggestion, content: Content): (q: Request)
    requires Valid(x, content)
    ensures 0 <= q.startIndex <= q.endIndex <= |content|
    ensures Some(q.kind) == KindOf(x.kind) && Some(q.startIndex) == x.startIndex && Some(q.endIndex) == x.endIndex
    ensures x.suggestedText.None? ==> q.suggestedText == []
    ensures x.suggestedText.Some? ==> q.suggestedText == x.suggestedText.value
    ensures x.originalText.None? ==> q.originalText == []
    ensures x.originalText.Some? ==> q.originalText == x.originalText.value
  {
    Request(KindOf(x.kind).value, x.startIndex.value, x.endIndex.value, OrEmpty(x.suggestedText), OrEmpty(x.originalText))
  }

  /** The requests the loop issues: one per valid element, in the model's order; invalid ones are skipped. */
  function Kept(items: seq<RawSuggestion>, content: Content): (r: seq<Request>)
    ensures |r| <= |items|
    ensures forall i :: 0 <= i < |r| ==> 0 <= r[i].startIndex <= r[i].endIndex <= |content|
    ensures r == [] <==> forall i :: 0 <= i < |items| ==> !Valid(items[i], content)
    decreases |items|
  {
    if |items| == 0 then []
    else
      var rest := Kept(items[1..], content);
      assert forall i :: 1 <= i < |items| ==> items[i] == items[1..][i - 1];
      if Valid(items[0], content) then [RequestOf(items[0], content)] + rest else rest
  }

  /** The suggestions table after `createSuggestion` for each request, with the ids handed out in order. */
  function StoreAll(store: Suggestions.Store, ids: seq<Id>, requests: seq<Request>, documentId: Id,
                    prompt: string, response: string, now: int): (r: Suggestions.Store)
    requires |ids| == |requests|
    requires forall i, j :: 0 <= i < j < |ids| ==> ids[i] != ids[j]
    requires forall i :: 0 <= i < |ids| ==> ids[i] !in store.suggestions
    ensures r.documents == store.documents
    ensures r.suggestions.Keys == store.suggestions.Keys + (set i | 0 <= i < |ids| :: ids[i])
    ensures forall k :: k in store.suggestions ==> r.suggestions[k] == store.suggestions[k]
    ensures forall i :: 0 <= i < |ids| ==>
      r.suggestions[ids[i]] == Suggestions.Suggestion(documentId, requests[i].kind, requests[i].startIndex,
        requests[i].endIndex, requests[i].suggestedText, requests[i].originalText, Suggestions.Pending, now,
        prompt, response)
    decreases |ids|
  {
    if |ids| == 0 then store
    else
      var q := requests[0];
      var first := Suggestions.CreateSuggestion(store, ids[0], documentId, q.kind, q.startIndex, q.endIndex,
                                                q.suggestedText, q.originalText, prompt, response, now);
      var r := StoreAll(first, ids[1..], requests[1..], documentId, prompt, response, now);
      IdSetSplit(ids);
      r
  }

  /** The identifiers of a sequence are its first one and those of its tail. */
  lemma IdSetSplit(ids: seq<Id>)
    requires |ids| > 0
    ensures forall i :: 1 <= i < |ids| ==> ids[i] == ids[1..][i - 1]
    ensures (set i | 0 <= i < |ids| :: ids[i]) == {ids[0]} + set i | 0 <= i < |ids[1..]| :: ids[1..][i]
  {
    assert forall i :: 1 <= i < |ids| ==> ids[i] == ids[1..][i - 1];
  }

  /** The pre-call checks, in the order they are made; their errors are not wrapped. */
  predicate MayGenerate(auth: Option<Identity>, hasApiKey: bool, content: Content) {
    auth.Some? && hasApiKey && |content| <= MaxContentLength
  }

  function GenerateError(auth: Option<Identity>, hasApiKey: bool, content: Content): Error
    requires !MayGenerate(auth, hasApiKey, content)
  {
    if auth.None? then GenerationUnauthorized
    else if !hasApiKey then MissingApiKey
    else DocumentTooLarge
  }

  /**
    `generateSuggestions`. `ids` are the identifiers the database will hand
    out, one per element the model returned. Neither the document nor its
    owner is checked, and the bounds are checked against the text passed in,
    not the stored one. Errors inside the model stage come back wrapped.
   */
  function Generate(store: Suggestions.Store, auth: Option<Identity>, hasApiKey: bool, documentId: Id,
                    content: Content, prompt: string, reply: Reply, ids: seq<Id>, now: int)
    : (r: Result<(Suggestions.Store, seq<Id>)>)
    requires reply.Parsed? ==> |ids| >= |reply.items|
    requires forall i, j :: 0 <= i < j < |ids| ==> ids[i] != ids[j]
    requires forall i :: 0 <= i < |ids| ==> ids[i] !in store.suggestions
    ensures !MayGenerate(auth, hasApiKey, content) ==> r == Err(GenerateError(auth, hasApiKey, content))
    ensures MayGenerate(auth, hasApiKey, content) ==>
      match reply
      case CallFailed => r == Err(GenerationFailed(ModelCallFailed))
      case Unparseable(_) => r == Err(GenerationFailed(ParseFailed))
      case Parsed(_, items) =>
        && (items == [] ==> r == Err(GenerationFailed(NoSuggestionsReceived)))
        && (items != [] && (forall i :: 0 <= i < |items| ==> !Valid(items[i], content)) ==>
              r == Err(GenerationFailed(NoValidSuggestions)))
        && (r.Ok? <==> exists i :: 0 <= i < |items| && Valid(items[i], content))
    ensures r.Ok? ==>
      var kept := Kept(reply.items, content);
      var (stored, created) := r.value;
      && created == ids[..|kept|]
      && stored.documents == store.documents
      && stored.suggestions.Keys == store.suggestions.Keys + (set i | 0 <= i < |created| :: created[i])
      && (forall k :: k in store.suggestions ==> stored.suggestions[k] == store.suggestions[k])
      && (forall i :: 0 <= i < |created| ==>
            && created[i] in stored.suggestions
            && stored.suggestions[created[i]]
               == Suggestions.Suggestion(documentId, kept[i].kind, kept[i].startIndex, kept[i].endIndex,
                                         kept[i].suggestedText, kept[i].originalText, Suggestions.Pending,
                                         now, prompt, reply.text))
  {
    if !MayGenerate(auth, hasApiKey, content) then Err(GenerateError(auth, hasApiKey, content))
    else
      match reply
      case CallFailed => Err(GenerationFailed(ModelCallFailed))
      case Unparseable(_) => Err(GenerationFailed(ParseFailed))
      case Parsed(text, items) =>
        if items == [] then Err(GenerationFailed(NoSuggestionsReceived))
        else
          var kept := Kept(items, content);
          if kept == [] then Err(GenerationFailed(NoValidSuggestions))
          else
            var created := ids[..|kept|];
            Ok((StoreAll(store, created, kept, documentId, prompt, text, now), created))
  }

  // ---------------------------------------------------------------------------
  // Properties

  /** Filtering distributes over concatenation: each element is judged on its own, and the order is kept. */
  lemma {:induction false} KeptAppend(a: seq<RawSuggestion>, b: seq<RawSuggestion>, content: Content)
    ensures Kept(a + b, content) == Kept(a, content) + Kept(b, content)
    decreases |a|
  {
    if |a| == 0 {
      assert a + b == b;
    } else {
      assert (a + b)[1..] == a[1..] + b;
      KeptAppend(a[1..], b, content);
    }
  }

  /** A single element yields exactly its request when it is valid, and nothing otherwise. */
  lemma KeptOne(x: RawSuggestion, content: Content)
    ensures Valid(x, content) ==> Kept([x], content) == [RequestOf(x, content)]
    ensures !Valid(x, content) ==> Kept([x], content) == []
  {
    assert [x][1..] == [];
  }

  /**
    Every suggestion the action stores, applied to the text it was generated
    from, is the textbook edit of its span: the text before it is kept and
    the span is replaced by the suggested text (inserted, for an insertion).
   */
  lemma GeneratedSuggestionsApply(store: Suggestions.Store, auth: Option<Identity>, hasApiKey: bool, documentId: Id,
                                  content: Content, prompt: string, reply: Reply, ids: seq<Id>, now: int, i: int)
    requires reply.Parsed? ==> |ids| >= |reply.items|
    requires forall i, j :: 0 <= i < j < |ids| ==> ids[i] != ids[j]
    requires forall i :: 0 <= i < |ids| ==> ids[i] !in store.suggestions
    requires Generate(store, auth, hasApiKey, documentId, content, prompt, reply, ids, now).Ok?
    requires 0 <= i < |Generate(store, auth, hasApiKey, documentId, content, prompt, reply, ids, now).value.1|
    ensures var (stored, created) := Generate(store, auth, hasApiKey, documentId, content, prompt, reply, ids, now).value;
      var s := stored.suggestions[created[i]];
      && 0 <= s.startIndex <= s.endIndex <= |content|
      && Suggestions.ApplySuggestion(content, s)
         == content[..s.startIndex]
            + (if s.kind == DeleteText then [] else s.suggestedText)
            + content[(if s.kind == InsertText then s.startIndex else s.endIndex)..]
  {
    var (stored, created) := Generate(store, auth, hasApiKey, documentId, content, prompt, reply, ids, now).value;
    var s := stored.suggestions[created[i]];
    assert 0 <= s.startIndex <= s.endIndex <= |content|;
    Suggestions.ApplyInBounds(content, s);
  }
}
