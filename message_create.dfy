/** A message posted in the suggestions channel becomes a suggestion: the
    filters, the row insert with no thread, the thread name, and the binding
    of the thread id to the new row. */
module MessageCreate {
  import opened JsText
  import opened Database

  /** The longest thread name Discord accepts, and how much of a longer
      content is kept before the `...` marker. */
  const ThreadNameLimit: nat := 100
  const ThreadNameKept: nat := 97

  /** The name of a suggestion's discussion thread: the content itself when
      it fits in `ThreadNameLimit` characters, otherwise its first
      `ThreadNameKept` characters and `...`, exactly `ThreadNameLimit`
      characters in all. */
  function ThreadName(content: string): (r: string)
    ensures |r| <= ThreadNameLimit
    ensures |content| <= ThreadNameLimit ==> r == content
    ensures |content| > ThreadNameLimit ==>
      |r| == ThreadNameLimit && r == content[..ThreadNameKept] + "..."
  {
    if |content| > ThreadNameLimit then Prefix(content, ThreadNameKept) + "..." else content
  }

  /** A thread name is its own thread name, and what it keeps of the content
      is a prefix of the content. */
  lemma ThreadNameStable(content: string)
    ensures ThreadName(ThreadName(content)) == ThreadName(content)
    ensures var r := ThreadName(content);
      StartsWith(content, if |content| > ThreadNameLimit then r[..ThreadNameKept] else r)
  {
  }

  /** The result of looking up the author as a guild member: the member's
      display name, no member (a message outside a guild), or a failed
      fetch. */
  datatype MemberLookup = Member(displayName: string) | NoMember | LookupFailed

  /** `member?.displayName || author.username`: the member's display name,
      unless there is no member or the name is empty. */
  function AuthorName(member: MemberLookup, username: string): (r: string)
    ensures member.Member? && member.displayName != "" ==> r == member.displayName
    ensures !member.Member? || member.displayName == "" ==> r == username
  {
    if member.Member? && member.displayName != "" then member.displayName else username
  }

  /** What a new message leads to: it is not for the bot (a bot's message
      or another channel), it is discarded as empty, the handler stopped at
      an error (`created` is the row inserted before it, if any), or the
      suggestion was created with its thread. */
  datatype Creation =
    | Ignored
    | Discarded
    | Aborted(created: Option<int>)
    | Created(id: int, threadName: string)

  /** `handleMessage`. `sent` is the id of the suggestion message the bot
      posts (`None`: sending failed), `embedUpdated` whether editing it to
      show the new id succeeded, `thread` the id of the thread started on it
      (`None`: the start failed), `now` the clock. */
  method HandleMessage(store: Store, isBot: bool, channelId: string, suggestionsChannelId: string,
                       authorId: string, username: string, content: string, member: MemberLookup,
                       sent: Option<string>, embedUpdated: bool, thread: Option<string>, now: int)
    returns (o: Creation)
    requires store.Valid()
    modifies store
    ensures store.Valid()
    ensures store.votes == old(store.votes) && store.history == old(store.history)
    ensures o.Ignored? <==> isBot || channelId != suggestionsChannelId
    ensures o.Discarded? <==> !isBot && channelId == suggestionsChannelId && AllWhitespace(content)
    ensures o.Ignored? || o.Discarded? || member.LookupFailed? ==>
      store.suggestions == old(store.suggestions) && store.lastId == old(store.lastId)
    ensures !o.Ignored? && !o.Discarded? && member.LookupFailed? ==> o == Aborted(None)
    ensures !o.Ignored? && !o.Discarded? && !member.LookupFailed? ==>
      Published(old(store.suggestions), old(store.lastId), store.suggestions, store.lastId, o,
                authorId, AuthorName(member, username), content, sent, embedUpdated, thread, now)
  {
    if isBot || channelId != suggestionsChannelId {
      return Ignored;
    }
    TrimEmptyIff(content);
    if content == "" || |Trim(content)| == 0 {
      return Discarded;
    }
    if member.LookupFailed? {
      return Aborted(None);
    }
    var displayName := AuthorName(member, username);
    o := Publish(store, authorId, displayName, content, sent, embedUpdated, thread, now);
  }

  /** The state after publishing a suggestion: nothing is stored when the
      message could not be sent or its id is already a suggestion's; else
      a row with the next id, no audit message and the untrimmed content is
      added, and it is bound to its thread exactly when the handler got as
      far as starting one. */
  ghost predicate Published(sugs: map<int, Suggestion>, lastId: nat, sugs': map<int, Suggestion>, lastId': nat,
                            o: Creation, authorId: string, displayName: string, content: string,
                            sent: Option<string>, embedUpdated: bool, thread: Option<string>, now: int)
  {
    if sent.None? || MessageIdTaken(sugs, sent.value) then
      o == Aborted(None) && sugs' == sugs && lastId' == lastId
    else
      var id := lastId + 1;
      var bound := embedUpdated && thread.Some?;
      && lastId' == id
      && o == (if bound then Created(id, ThreadName(content)) else Aborted(Some(id)))
      && sugs' == sugs[id := Suggestion(id, sent.value, if bound then thread else None, None,
                                        authorId, displayName, content, now)]
  }

  /** Posting the suggestion message, inserting its row and binding its
      thread: lines 33-73 of `handleMessage`. */
  method Publish(store: Store, authorId: string, displayName: string, content: string,
                 sent: Option<string>, embedUpdated: bool, thread: Option<string>, now: int)
    returns (o: Creation)
    requires store.Valid()
    modifies store
    ensures store.Valid()
    ensures store.votes == old(store.votes) && store.history == old(store.history)
    ensures Published(old(store.suggestions), old(store.lastId), store.suggestions, store.lastId, o,
                      authorId, displayName, content, sent, embedUpdated, thread, now)
  {
    if sent.None? {
      return Aborted(None);
    }
    var messageId := sent.value;
    var created := store.CreateSuggestion(messageId, None, authorId, displayName, content, now);
    if created.Err? {
      return Aborted(None);
    }
    var suggestionId := created.value;
    if !embedUpdated {
      return Aborted(Some(suggestionId));
    }
    var threadName := ThreadName(content);
    if thread.None? {
      return Aborted(Some(suggestionId));
    }
    ghost var inserted := store.suggestions;
    ghost var row := Suggestion(suggestionId, messageId, None, None, authorId, displayName, content, now);
    store.UpdateThreadId(thread.value, suggestionId);
    assert store.suggestions == inserted[suggestionId := row.(threadId := thread)];
    o := Created(suggestionId, threadName);
  }

  /** Every id a suggestion is created under is new, and larger than every
      id already in the table. */
  lemma PublishedIdIsNew(sugs: map<int, Suggestion>, lastId: nat, sugs': map<int, Suggestion>, lastId': nat,
                         o: Creation, authorId: string, displayName: string, content: string,
                         sent: Option<string>, embedUpdated: bool, thread: Option<string>, now: int)
    requires KeyedById(sugs, lastId)
    requires Published(sugs, lastId, sugs', lastId', o, authorId, displayName, content, sent, embedUpdated, thread, now)
    requires o.Created? || (o.Aborted? && o.created.Some?)
    ensures var id := if o.Created? then o.id else o.created.value;
      && id !in sugs && (forall old_id :: old_id in sugs ==> old_id < id)
      && sugs'.Keys == sugs.Keys + {id} && (forall old_id :: old_id in sugs ==> sugs'[old_id] == sugs[old_id])
  {
  }
}
