/**
  The records the handlers share, and the shape of their answers.

  Every handler is modelled as a pure function from the tables it reads to
  either the tables it writes or the error it throws. Identifiers are
  natural numbers; a creation handler receives the identifier the database
  allocates for the new row, which is not yet in use.
 */
module Schema {
  import opened Text

  type Id = nat

  datatype Option<T> = None | Some(value: T)

  /** What a handler returns: its effect, or the error it throws. */
  datatype Result<T> = Ok(value: T) | Err(error: Error)

  /** One constructor per distinct error message of the handlers. */
  datatype Error =
    | NotAuthenticated          // "Not authenticated"
    | Unauthorized              // "Unauthorized" (no identity, suggestion handlers)
    | UnauthorizedAccess        // "Unauthorized access to document"
    | DocumentNotFound
    | SuggestionNotFound
    | ChangeNotFound
    | AlreadyProcessed          // "Suggestion has already been processed"
    | NoValidPendingSuggestions
    | NotPending                // "Can only tweak pending changes"
    | TodoNotFoundOrUnauthorized
    | GenerationUnauthorized    // "Unauthorized: You must be logged in to generate suggestions"
    | MissingApiKey
    | DocumentTooLarge
    | GenerationFailed(reason: Error)  // "Failed to generate suggestions: <reason>"
    | ModelCallFailed           // the language-model call threw; its own message is not modelled
    | ParseFailed
    | NoSuggestionsReceived
    | NoValidSuggestions

  /** The signed-in caller. */
  datatype Identity = Identity(subject: string, tokenIdentifier: string)

  /** Review state of a document. */
  datatype ReviewStatus = Draft | PendingReview | Approved | Rejected

  /**
    A row of the documents table, restricted to the fields some modelled
    handler reads or writes. Optional fields of the table are `Option`s.
   */
  datatype Document = Document(
    userId: Option<string>,
    content: Option<Content>,
    originalContent: Option<Content>,
    currentContent: Option<Content>,
    status: Option<ReviewStatus>,
    lastEditedBy: Option<string>,
    createdAt: int,
    updatedAt: int)

  /** `x ?? ""` and, for strings, `x || ""`: an absent text reads as empty. */
  function OrEmpty(x: Option<Content>): Content {
    if x.Some? then x.value else []
  }

  /** `x || fallback`: JavaScript also skips a present but empty text. */
  function OrIfEmpty(x: Option<Content>, fallback: Content): Content {
    if x.Some? && x.value != [] then x.value else fallback
  }
}
