/** A deleted suggestion message takes its suggestion with it: the row, by
    cascade its votes and its edit history, and (best effort) its thread. */
module MessageDelete {
  import opened JsText
  import opened Database

  /** What a deleted message leads to: nothing for a partial message with
      no id or a message that is no suggestion, or the deletion of
      suggestion `id`, with or without an attempt to delete its thread. */
  datatype Removal = NoId | NotSuggestion | Deleted(id: int, threadDeleteTried: bool)

  /** Whether the handler tries to delete the thread: the row names a
      non-empty thread id and the message came from a guild. Whether the
      attempt succeeds does not change what happens to the row. */
  predicate TriesThreadDelete(s: Suggestion, guildPresent: bool)
  {
    s.threadId.Some? && s.threadId.value != "" && guildPresent
  }

  /** `handleMessageDelete`. `messageId` is `None` for a partial message
      that carries no id. */
  method HandleMessageDelete(store: Store, messageId: Option<string>, guildPresent: bool)
    returns (o: Removal)
    requires store.Valid()
    modifies store
    ensures store.Valid()
    ensures o.NoId? <==> messageId.None? || messageId.value == ""
    ensures o.NotSuggestion? <==>
      messageId.Some? && messageId.value != "" && !MessageIdTaken(old(store.suggestions), messageId.value)
    ensures !o.Deleted? ==>
      && store.suggestions == old(store.suggestions) && store.votes == old(store.votes)
      && store.history == old(store.history) && store.lastId == old(store.lastId)
    ensures o.Deleted? ==>
      && messageId.Some? && o.id in old(store.suggestions)
      && old(store.suggestions)[o.id].messageId == messageId.value
      && o.threadDeleteTried == TriesThreadDelete(old(store.suggestions)[o.id], guildPresent)
      && store.suggestions == old(store.suggestions) - {o.id}
      && store.votes == VotesWithout(old(store.votes), o.id)
      && store.history == HistoryWithout(old(store.history), o.id)
      && store.lastId == old(store.lastId)
      && !MessageIdTaken(store.suggestions, messageId.value)
  {
    if messageId.None? || messageId.value == "" {
      return NoId;
    }
    var suggestion := store.GetSuggestionByMessageId(messageId.value);
    if suggestion.None? {
      return NotSuggestion;
    }
    var s := suggestion.value;
    var threadDeleteTried := TriesThreadDelete(s, guildPresent);
    DeletedMessageIsGone(store.suggestions, s.id, messageId.value);
    store.DeleteSuggestion(s.id);
    o := Deleted(s.id, threadDeleteTried);
  }

  /** Once a suggestion is deleted, no row carries its message id any more
      (message ids are unique), so a second delete of the same message
      finds nothing. */
  lemma DeletedMessageIsGone(sugs: map<int, Suggestion>, id: int, messageId: string)
    requires UniqueMessageIds(sugs) && id in sugs && sugs[id].messageId == messageId
    ensures !MessageIdTaken(sugs - {id}, messageId)
  {
  }

  /** No vote and no history entry of a deleted suggestion is left, and
      every other suggestion keeps its votes, its tally and its history. */
  lemma DeleteCascades(votes: map<VoteKey, Vote>, history: seq<EditEntry>, id: int, other: int)
    requires other != id
    ensures forall k :: k in VotesWithout(votes, id) ==> k.0 != id
    ensures HistoryOf(HistoryWithout(history, id), id) == []
    ensures TallyOf(VotesWithout(votes, id), other) == TallyOf(votes, other)
    ensures TallyOf(VotesWithout(votes, id), id) == Tally(0, 0)
    ensures HistoryOf(HistoryWithout(history, id), other) == HistoryOf(history, other)
  {
    var after := VotesWithout(votes, id);
    assert VotesOfType(after, other, "up") == VotesOfType(votes, other, "up");
    assert VotesOfType(after, other, "down") == VotesOfType(votes, other, "down");
    assert VotesOfType(after, id, "up") == {};
    assert VotesOfType(after, id, "down") == {};
    HistoryWithoutKeepsOthers(history, id, id);
    HistoryWithoutKeepsOthers(history, id, other);
  }

  /** Deleting the same message twice: the second call finds no suggestion
      and changes nothing, so the store ends as the first call left it. */
  method DeleteTwice(store: Store, messageId: string, guildPresent: bool)
    returns (first: Removal, second: Removal)
    requires store.Valid() && messageId != ""
    modifies store
    ensures store.Valid()
    ensures second == NotSuggestion
    ensures first.Deleted? || first.NotSuggestion?
    ensures first.NotSuggestion? ==>
      && store.suggestions == old(store.suggestions) && store.votes == old(store.votes)
      && store.history == old(store.history) && store.lastId == old(store.lastId)
    ensures first.Deleted? ==>
      && store.suggestions == old(store.suggestions) - {first.id}
      && store.votes == VotesWithout(old(store.votes), first.id)
      && store.history == HistoryWithout(old(store.history), first.id)
      && store.lastId == old(store.lastId)
  {
    first := HandleMessageDelete(store, Some(messageId), guildPresent);
    second := HandleMessageDelete(store, Some(messageId), guildPresent);
  }
}
