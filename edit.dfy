/** The `/edit` command: the permission gate that offers the edit form, the
    ordered checks on a submitted form, the two writes of an accepted edit,
    and the audit transcript of a suggestion's edits. */
module EditCommand {
  import opened JsText
  import opened Database

  // ---------------------------------------------------------------------
  // The permission gate
  // ---------------------------------------------------------------------

  /** The author of the suggestion or an administrator may edit it. An
      absent permission set counts as no administrator. */
  predicate CanEdit(s: Suggestion, userId: string, isAdmin: bool)
  {
    userId == s.authorId || isAdmin
  }

  /** The custom id of the edit form of suggestion `id`. */
  function ModalCustomId(id: int): string
  {
    "edit_suggestion_" + IntToString(id)
  }

  /** The suggestion id read back from a form's custom id: the third
      `_`-separated piece read by `parseInt`; `None` is NaN, which is what
      `parseInt` gives for a missing piece too. */
  function ParseSuggestionId(customId: string): Option<int>
  {
    match SplitPiece(customId, '_', 2)
    case None => None
    case Some(piece) => ParseInt(piece)
  }

  /** The form a suggestion's edit form carries reads back as that
      suggestion's id. */
  lemma ParseModalCustomId(id: int)
    ensures ParseSuggestionId(ModalCustomId(id)) == Some(id)
  {
    var text := IntToString(id);
    assert '_' !in text;
    SplitModalCustomId(text);
    ParseIntOfIntToString(id);
  }

  /** A form custom id splits at `_` into its two fixed words and the text
      that follows them, when that text holds no `_`. */
  lemma SplitModalCustomId(text: string)
    requires '_' !in text
    ensures Split("edit_suggestion_" + text, '_') == ["edit", "suggestion", text]
  {
    assert "edit_suggestion_" + text == "edit" + ['_'] + ("suggestion" + ['_'] + text);
    SplitAfterWord("edit", '_', "suggestion" + ['_'] + text);
    SplitAfterWord("suggestion", '_', text);
    SplitWithoutSeparator(text, '_');
  }

  /** What `/edit` answers: outside a thread, in a thread no suggestion is
      linked to, to a user who may not edit, or with the edit form, its
      custom id and the current content filled in. */
  datatype Offer = NotInThread | NotLinked | Forbidden | ShowModal(customId: string, prefill: string)

  /** `execute`: offers the edit form only inside a thread linked to a
      suggestion and only to its author or an administrator; it changes
      nothing. */
  method Execute(store: Store, inThread: bool, channelId: string, userId: string, isAdmin: bool)
    returns (o: Offer)
    requires store.Valid()
    ensures !inThread ==> o == NotInThread
    ensures inThread && !ThreadIdTaken(store.suggestions, channelId) ==> o == NotLinked
    ensures o.ShowModal? ==> inThread && ThreadIdTaken(store.suggestions, channelId)
    ensures inThread ==> forall s :: FirstInThread(store.suggestions, channelId, s) ==>
      o == if CanEdit(s, userId, isAdmin) then ShowModal(ModalCustomId(s.id), s.content) else Forbidden
  {
    if !inThread {
      return NotInThread;
    }
    var suggestion := store.GetSuggestionByThreadId(channelId);
    if suggestion.None? {
      return NotLinked;
    }
    var s := suggestion.value;
    forall t | FirstInThread(store.suggestions, channelId, t)
      ensures t == s
    {
      FirstInThreadUnique(store.suggestions, channelId, s, t);
    }
    if !CanEdit(s, userId, isAdmin) {
      return Forbidden;
    }
    o := ShowModal(ModalCustomId(s.id), s.content);
  }

  // ---------------------------------------------------------------------
  // The checks on a submitted form
  // ---------------------------------------------------------------------

  datatype Rejection = NotFound | TooShort | NoChange

  /** The minimum length of a suggestion, after trimming. */
  const MinLength: nat := 10

  /** The checks of a submitted form, first failure first: the thread's
      suggestion must exist and have the id the form names, the trimmed
      content must have at least `MinLength` characters, and it must differ
      from the stored content. `None` means every check passed. */
  function EditGuard(formId: Option<int>, row: Option<Suggestion>, newContent: string): (r: Option<Rejection>)
    ensures r == Some(NotFound) <==> row.None? || formId != Some(row.value.id)
    ensures r == Some(TooShort) <==> row.Some? && formId == Some(row.value.id) && |newContent| < MinLength
    ensures r == Some(NoChange) <==>
      row.Some? && formId == Some(row.value.id) && |newContent| >= MinLength && newContent == row.value.content
    ensures r == None <==>
      row.Some? && formId == Some(row.value.id) && |newContent| >= MinLength && newContent != row.value.content
  {
    if row.None? || formId != Some(row.value.id) then Some(NotFound)
    else if |newContent| < MinLength then Some(TooShort)
    else if newContent == row.value.content then Some(NoChange)
    else None
  }

  /** A wrong id is reported as such even when the content is also too
      short or unchanged, and a too-short content even when it is also
      unchanged: the first check to fail decides. */
  lemma GuardOrder(formId: Option<int>, row: Option<Suggestion>, newContent: string)
    ensures (row.None? || formId != Some(row.value.id)) ==> EditGuard(formId, row, newContent) == Some(NotFound)
    ensures row.Some? && formId == Some(row.value.id) && |newContent| < MinLength ==>
      EditGuard(formId, row, newContent) == Some(TooShort)
  {
  }

  /** A content of exactly `MinLength` characters passes the length check,
      one of `MinLength - 1` does not. */
  lemma LengthBoundary(s: Suggestion, newContent: string)
    requires newContent != s.content
    ensures |newContent| == MinLength ==> EditGuard(Some(s.id), Some(s), newContent) == None
    ensures |newContent| == MinLength - 1 ==> EditGuard(Some(s.id), Some(s), newContent) == Some(TooShort)
  {
  }

  /** A form read back from the form its own suggestion's `/edit` offered
      passes the id check. */
  lemma OfferedFormMatches(s: Suggestion, newContent: string)
    ensures EditGuard(ParseSuggestionId(ModalCustomId(s.id)), Some(s), newContent) != Some(NotFound)
  {
    ParseModalCustomId(s.id);
  }

  /** The display name an edit is recorded under: the member's display name
      when the member could be fetched, the username otherwise. */
  function EditorName(username: string, memberName: Option<string>): (r: string)
    ensures memberName.Some? ==> r == memberName.value
    ensures memberName.None? ==> r == username
  {
    if memberName.Some? then memberName.value else username
  }

  // ---------------------------------------------------------------------
  // The audit transcript
  // ---------------------------------------------------------------------

  /** The cap on how much of a content the transcript shows. */
  const PreviewLength: nat := 100

  /** `c.substring(0, 100)` followed by `...` when `c` is longer. */
  function Preview(c: string): (r: string)
    ensures |c| <= PreviewLength ==> r == c
    ensures |c| > PreviewLength ==> r == c[..PreviewLength] + "..." && |r| == PreviewLength + 3
  {
    Prefix(c, PreviewLength) + (if |c| > PreviewLength then "..." else "")
  }

  const Header: string := "\U{1F4DD} **Hist\U{F3}rico de Edi\U{E7}\U{F5}es**\n\n"

  /** The label of the `i`-th entry (counting from 0): "Versão i+1" in bold. */
  function VersionLabel(i: nat): string
  {
    "**Vers\U{E3}o " + NatToString(i + 1) + "**"
  }

  /** The transcript block of entry `e`, the `i`-th of its suggestion's
      history; `formatDate` renders a timestamp as the locale does. */
  function Block(i: nat, e: EditEntry, formatDate: int -> string): (r: string)
    ensures StartsWith(r, VersionLabel(i))
  {
    var tag := VersionLabel(i);
    var rest := " (" + formatDate(e.editedAt) + ") - " + e.editedByUsername + "\n"
      + "**De:** " + Preview(e.oldContent) + "\n"
      + "**Para:** " + Preview(e.newContent) + "\n\n";
    assert (tag + rest)[..|tag|] == tag;
    tag + rest
  }

  /** The blocks of a history, one per entry, in history order. */
  function Blocks(h: seq<EditEntry>, formatDate: int -> string): string
    decreases |h|
  {
    if h == [] then ""
    else Blocks(h[..|h| - 1], formatDate) + Block(|h| - 1, h[|h| - 1], formatDate)
  }

  /** The transcript shown in the audit message, or `None` when none is
      built: there is no audit message id (null or empty) or no history. */
  function Transcript(auditMessageId: Option<string>, h: seq<EditEntry>, formatDate: int -> string): Option<string>
  {
    if auditMessageId.None? || auditMessageId.value == "" || h == [] then None
    else Some(Header + Blocks(h, formatDate))
  }

  /** The transcript of a longer history extends the transcript of each of
      its prefixes: entry `k` contributes exactly block `k`, right after the
      blocks of the entries before it. */
  lemma {:induction false} BlocksPrefix(h: seq<EditEntry>, k: nat, formatDate: int -> string)
    requires k < |h|
    ensures StartsWith(Blocks(h, formatDate), Blocks(h[..k], formatDate) + Block(k, h[k], formatDate))
    decreases |h|
  {
    var init := h[..|h| - 1];
    if k == |h| - 1 {
      assert h[..k] == init;
    } else {
      BlocksPrefix(init, k, formatDate);
      assert init[..k] == h[..k];
      StartsWithExtend(Blocks(init, formatDate), Block(|h| - 1, h[|h| - 1], formatDate),
                       Blocks(h[..k], formatDate) + Block(k, h[k], formatDate));
    }
  }

  /** One more entry adds one block at the end and changes nothing before
      it. */
  lemma BlocksAppend(h: seq<EditEntry>, e: EditEntry, formatDate: int -> string)
    ensures Blocks(h + [e], formatDate) == Blocks(h, formatDate) + Block(|h|, e, formatDate)
  {
    assert (h + [e])[..|h|] == h;
  }

  /** `updateAuditMessage`'s loop: the header, then one block per entry. */
  method BuildAuditContent(h: seq<EditEntry>, formatDate: int -> string) returns (content: string)
    ensures content == Header + Blocks(h, formatDate)
  {
    var blocks := "";
    for i := 0 to |h|
      invariant blocks == Blocks(h[..i], formatDate)
    {
      assert h[..i + 1] == h[..i] + [h[i]];
      BlocksAppend(h[..i], h[i], formatDate);
      blocks := blocks + Block(i, h[i], formatDate);
    }
    assert h[..|h|] == h;
    content := Header + blocks;
  }

  /** `updateAuditMessage`: the transcript of the suggestion's whole
      history, or `None` when its audit message id is null or empty, the
      channel is not a thread, or there is no history. */
  method UpdateAuditMessage(store: Store, sid: int, auditMessageId: Option<string>, inThread: bool,
                            formatDate: int -> string)
    returns (transcript: Option<string>)
    requires store.Valid()
    ensures transcript == if inThread then Transcript(auditMessageId, HistoryOf(store.history, sid), formatDate) else None
  {
    if auditMessageId.None? || auditMessageId.value == "" {
      return None;
    }
    if !inThread {
      return None;
    }
    var h := store.GetEditHistory(sid);
    if |h| == 0 {
      return None;
    }
    var content := BuildAuditContent(h, formatDate);
    transcript := Some(content);
  }

  // ---------------------------------------------------------------------
  // Submitting the form
  // ---------------------------------------------------------------------

  /** What a submitted form leads to: a failed check with nothing written,
      an error before the writes (the reply could not be deferred), an
      error after the two writes (the channel is no thread, the
      suggestion message could not be refreshed, or the final reply failed), or success with the
      recounted tally and the audit transcript. */
  datatype Submission =
    | Rejected(reason: Rejection)
    | FailedBeforeSave
    | FailedAfterSave
    | Edited(tally: Tally, transcript: Option<string>)

  /** `handleModalSubmit`. On a form that passes every check, exactly one
      history entry is appended, holding the stored content as the old one
      and the trimmed input as the new one, and the stored content becomes
      the trimmed input. `deferred` is whether deferring the reply
      succeeded (when it fails, nothing is written); `confirmed` is
      whether the Discord calls after the writes succeeded: fetching and
      editing the suggestion message and the final `editReply` (the audit
      update catches its own errors). */
  method HandleModalSubmit(store: Store, customId: string, input: string, channelId: string,
                           inThread: bool, deferred: bool, editorId: string, username: string,
                           memberName: Option<string>, now: int, confirmed: bool,
                           formatDate: int -> string)
    returns (o: Submission)
    requires store.Valid()
    modifies store
    ensures store.Valid()
    ensures store.votes == old(store.votes) && store.lastId == old(store.lastId)
    ensures !ThreadIdTaken(old(store.suggestions), channelId) ==>
      o == Rejected(NotFound) && store.suggestions == old(store.suggestions) && store.history == old(store.history)
    ensures forall s :: FirstInThread(old(store.suggestions), channelId, s) ==>
      var content := Trim(input);
      var guard := EditGuard(ParseSuggestionId(customId), Some(s), content);
      if guard.Some? then
        o == Rejected(guard.value) && store.suggestions == old(store.suggestions) && store.history == old(store.history)
      else if !deferred then
        o == FailedBeforeSave && store.suggestions == old(store.suggestions) && store.history == old(store.history)
      else
        && store.history == old(store.history) + [EditEntry(s.id, s.content, content, editorId,
                                                            EditorName(username, memberName), now)]
        && store.suggestions == old(store.suggestions)[s.id := s.(content := content)]
        && (o.Edited? <==> inThread && confirmed)
        && (o.Edited? ==>
              && o.tally == TallyOf(store.votes, s.id)
              && o.transcript == Transcript(s.auditMessageId, HistoryOf(store.history, s.id), formatDate))
  {
    var formId := ParseSuggestionId(customId);
    var content := Trim(input);
    var row := store.GetSuggestionByThreadId(channelId);
    var guard := EditGuard(formId, row, content);
    if guard.Some? {
      return Rejected(guard.value);
    }
    var s := row.value;
    forall t | FirstInThread(old(store.suggestions), channelId, t)
      ensures t == s
    {
      FirstInThreadUnique(store.suggestions, channelId, s, t);
    }
    if !deferred {
      return FailedBeforeSave;
    }
    var displayName := EditorName(username, memberName);
    var saved := store.SaveEditHistory(s.id, s.content, content, editorId, displayName, now);
    store.UpdateSuggestionContent(content, s.id);
    if !inThread || !confirmed {
      return FailedAfterSave;
    }
    var tally := store.CountVotes(s.id);
    var transcript := UpdateAuditMessage(store, s.id, s.auditMessageId, inThread, formatDate);
    o := Edited(tally, transcript);
  }

  // ---------------------------------------------------------------------
  // The history as a chain of versions
  // ---------------------------------------------------------------------

  /** Each entry's old content is the previous entry's new content, and the
      last entry's new content is the stored content. */
  predicate ChainedTo(h: seq<EditEntry>, content: string)
  {
    && (forall i :: 0 < i < |h| ==> h[i].oldContent == h[i - 1].newContent)
    && (h != [] ==> h[|h| - 1].newContent == content)
  }

  /** An accepted edit keeps a suggestion's history a chain that ends at
      its stored content: the new entry starts where the last one ended and
      ends at the new content. */
  lemma EditKeepsChain(history: seq<EditEntry>, sid: int, oldContent: string, e: EditEntry)
    requires ChainedTo(HistoryOf(history, sid), oldContent)
    requires e.suggestionId == sid && e.oldContent == oldContent
    ensures ChainedTo(HistoryOf(history + [e], sid), e.newContent)
    ensures |HistoryOf(history + [e], sid)| == |HistoryOf(history, sid)| + 1
  {
    HistoryOfAppend(history, e, sid);
  }

  /** An edit of one suggestion leaves every other suggestion's history as
      it was. */
  lemma EditKeepsOtherHistories(history: seq<EditEntry>, e: EditEntry, other: int)
    requires e.suggestionId != other
    ensures HistoryOf(history + [e], other) == HistoryOf(history, other)
  {
    HistoryOfAppend(history, e, other);
  }
}
