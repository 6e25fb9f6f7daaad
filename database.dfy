/** The suggestion store: the `suggestions` and `votes` tables and the prepared
    queries over them, plus the queries and the `edit_history` table that the
    handlers use and whose semantics follow from their call sites (lookup by
    thread, append-only history read in insertion order, content update,
    delete with cascade). Foreign keys are enforced, so a vote or a history
    entry always belongs to an existing suggestion. */
module Database {
  import opened JsText

  /** `(suggestion_id, user_id)`: the UNIQUE key of the `votes` table. */
  type VoteKey = (int, string)

  /** One row of `suggestions`. `auditMessageId` is the column the edit
      workflow reads; no query of the core writes it. */
  datatype Suggestion = Suggestion(
    id: int,
    messageId: string,
    threadId: Option<string>,
    auditMessageId: Option<string>,
    authorId: string,
    authorUsername: string,
    content: string,
    createdAt: int)

  /** The non-key columns of one row of `votes`. */
  datatype Vote = Vote(voteType: string, votedAt: int)

  /** One row of `edit_history`. */
  datatype EditEntry = EditEntry(
    suggestionId: int,
    oldContent: string,
    newContent: string,
    editedById: string,
    editedByUsername: string,
    editedAt: int)

  /** The row `countVotes` returns. */
  datatype Tally = Tally(upvotes: nat, downvotes: nat)

  /** The constraint a rejected statement violated. */
  datatype StoreError = UniqueViolation | ForeignKeyViolation | CheckViolation

  datatype Status = Done | Failed(error: StoreError)

  datatype Result<T> = Ok(value: T) | Err(error: StoreError)

  /** The CHECK constraint on `vote_type`. */
  predicate IsVoteType(t: string)
  {
    t == "up" || t == "down"
  }

  // ---------------------------------------------------------------------
  // The tables' constraints, as predicates on their contents
  // ---------------------------------------------------------------------

  /** Every row sits under its own `id`, an AUTOINCREMENT value no larger
      than the last one handed out. */
  predicate KeyedById(sugs: map<int, Suggestion>, lastId: int)
  {
    forall id :: id in sugs ==> sugs[id].id == id && 1 <= id <= lastId
  }

  /** `s` is the row with the smallest id among those whose `thread_id` is
      `threadId`. */
  predicate FirstInThread(sugs: map<int, Suggestion>, threadId: string, s: Suggestion)
  {
    && s.id in sugs && sugs[s.id] == s && s.threadId == Some(threadId)
    && forall id :: id in sugs && sugs[id].threadId == Some(threadId) ==> s.id <= id
  }

  /** At most one row is the first of its thread, so a lookup by thread id
      has one answer. */
  lemma FirstInThreadUnique(sugs: map<int, Suggestion>, threadId: string, s: Suggestion, t: Suggestion)
    requires FirstInThread(sugs, threadId, s) && FirstInThread(sugs, threadId, t)
    ensures s == t
  {
    assert s.id <= t.id && t.id <= s.id;
  }

  /** A thread some row is linked to has a first row, so the contracts
      that speak of "the first row of the thread" are about a real row. */
  lemma FirstInThreadExists(sugs: map<int, Suggestion>, lastId: int, threadId: string)
    requires KeyedById(sugs, lastId) && ThreadIdTaken(sugs, threadId)
    ensures exists s :: FirstInThread(sugs, threadId, s)
  {
    var w :| w in sugs && sugs[w].threadId == Some(threadId);
    var ids := set id | id in sugs && sugs[id].threadId == Some(threadId);
    var score := map j | j in ids :: j;
    LeastExists(ids, score, w);
    var m :| m in ids && forall j :: j in ids ==> score[m] <= score[j];
    forall id | id in sugs && sugs[id].threadId == Some(threadId)
      ensures m <= id
    {
      assert id in ids;
    }
    assert FirstInThread(sugs, threadId, sugs[m]);
  }

  /** `message_id TEXT UNIQUE`. */
  predicate UniqueMessageIds(sugs: map<int, Suggestion>)
  {
    forall a, b :: a in sugs && b in sugs && sugs[a].messageId == sugs[b].messageId ==> a == b
  }

  predicate MessageIdTaken(sugs: map<int, Suggestion>, messageId: string)
  {
    exists id :: id in sugs && sugs[id].messageId == messageId
  }

  predicate ThreadIdTaken(sugs: map<int, Suggestion>, threadId: string)
  {
    exists id :: id in sugs && sugs[id].threadId == Some(threadId)
  }

  /** Every stored `vote_type` passed the CHECK constraint. */
  predicate TypedVotes(votes: map<VoteKey, Vote>)
  {
    forall k :: k in votes ==> IsVoteType(votes[k].voteType)
  }

  /** The foreign key `votes.suggestion_id`: no orphan votes. */
  predicate VotesReferToRows(sugs: map<int, Suggestion>, votes: map<VoteKey, Vote>)
  {
    forall k :: k in votes ==> k.0 in sugs
  }

  /** The foreign key `edit_history.suggestion_id`: no orphan entries. */
  predicate HistoryRefersToRows(sugs: map<int, Suggestion>, history: seq<EditEntry>)
  {
    forall i :: 0 <= i < |history| ==> history[i].suggestionId in sugs
  }

  // ---------------------------------------------------------------------
  // Vote counting
  // ---------------------------------------------------------------------

  /** The votes cast on suggestion `sid`, one per voter. */
  function VotesOn(votes: map<VoteKey, Vote>, sid: int): set<VoteKey>
  {
    set k | k in votes && k.0 == sid
  }

  function VotesOfType(votes: map<VoteKey, Vote>, sid: int, t: string): set<VoteKey>
  {
    set k | k in votes && k.0 == sid && votes[k].voteType == t
  }

  /** `countVotes`: the number of 'up' and of 'down' votes on `sid`. When
      every vote has a valid type the two add up to the number of votes on
      `sid`. */
  function TallyOf(votes: map<VoteKey, Vote>, sid: int): (t: Tally)
    ensures t.upvotes == |VotesOfType(votes, sid, "up")|
    ensures t.downvotes == |VotesOfType(votes, sid, "down")|
    ensures TypedVotes(votes) ==> t.upvotes + t.downvotes == |VotesOn(votes, sid)|
  {
    var ups := VotesOfType(votes, sid, "up");
    var downs := VotesOfType(votes, sid, "down");
    assert TypedVotes(votes) ==> VotesOn(votes, sid) == ups + downs;
    assert ups * downs == {};
    Tally(|ups|, |downs|)
  }

  /** The users who have a vote on `sid`. */
  function VotersOn(votes: map<VoteKey, Vote>, sid: int): set<string>
  {
    set k | k in votes && k.0 == sid :: k.1
  }

  /** The tally never counts a user twice: there are exactly as many votes
      on a suggestion as there are distinct users who voted on it. */
  lemma {:induction false} VotesOnAreOnePerVoter(votes: map<VoteKey, Vote>, sid: int)
    ensures |VotesOn(votes, sid)| == |VotersOn(votes, sid)|
    decreases |votes|
  {
    if k :| k in votes && k.0 == sid {
      var rest := votes - {k};
      VotesOnAreOnePerVoter(rest, sid);
      VotesOnWithout(votes, sid, k);
    } else {
      assert VotesOn(votes, sid) == {};
      assert VotersOn(votes, sid) == {};
    }
  }

  /** Taking one vote on `sid` out of the table takes one vote and one
      voter away. */
  lemma VotesOnWithout(votes: map<VoteKey, Vote>, sid: int, k: VoteKey)
    requires k in votes && k.0 == sid
    ensures |VotesOn(votes, sid)| == |VotesOn(votes - {k}, sid)| + 1
    ensures |VotersOn(votes, sid)| == |VotersOn(votes - {k}, sid)| + 1
  {
    var rest := votes - {k};
    assert VotesOn(votes, sid) == VotesOn(rest, sid) + {k};
    assert VotersOn(votes, sid) == VotersOn(rest, sid) + {k.1};
    assert k.1 !in VotersOn(rest, sid);
  }

  // ---------------------------------------------------------------------
  // Edit history
  // ---------------------------------------------------------------------

  /** `getEditHistory`: the entries of `sid`, in the order they were saved. */
  function HistoryOf(history: seq<EditEntry>, sid: int): (r: seq<EditEntry>)
    ensures forall i :: 0 <= i < |r| ==> r[i].suggestionId == sid && r[i] in history
    decreases |history|
  {
    if history == [] then []
    else
      var last := history[|history| - 1];
      HistoryOf(history[..|history| - 1], sid) + (if last.suggestionId == sid then [last] else [])
  }

  /** Saving an entry puts it last in its suggestion's history and leaves
      every other suggestion's history as it was. */
  lemma HistoryOfAppend(history: seq<EditEntry>, e: EditEntry, sid: int)
    ensures HistoryOf(history + [e], sid)
         == HistoryOf(history, sid) + (if e.suggestionId == sid then [e] else [])
  {
    assert (history + [e])[..|history|] == history;
  }

  /** The cascade of deleting suggestion `id` on `edit_history`. */
  function HistoryWithout(history: seq<EditEntry>, id: int): (r: seq<EditEntry>)
    ensures forall i :: 0 <= i < |r| ==> r[i].suggestionId != id && r[i] in history
    decreases |history|
  {
    if history == [] then []
    else
      var last := history[|history| - 1];
      HistoryWithout(history[..|history| - 1], id) + (if last.suggestionId != id then [last] else [])
  }

  /** The cascade leaves the histories of the other suggestions untouched
      and that of the deleted one empty. */
  lemma {:induction false} HistoryWithoutKeepsOthers(history: seq<EditEntry>, id: int, sid: int)
    ensures HistoryOf(HistoryWithout(history, id), sid)
         == if sid == id then [] else HistoryOf(history, sid)
    decreases |history|
  {
    if history != [] {
      var init := history[..|history| - 1];
      var last := history[|history| - 1];
      HistoryWithoutKeepsOthers(init, id, sid);
      var w := HistoryWithout(init, id);
      if last.suggestionId != id {
        HistoryOfAppend(w, last, sid);
      } else {
        assert HistoryWithout(history, id) == w;
      }
    }
  }

  /** The cascade of deleting suggestion `id` on `votes`. */
  function VotesWithout(votes: map<VoteKey, Vote>, id: int): (r: map<VoteKey, Vote>)
    ensures forall k :: k in r <==> k in votes && k.0 != id
    ensures forall k :: k in r ==> r[k] == votes[k]
  {
    map k | k in votes && k.0 != id :: votes[k]
  }

  // ---------------------------------------------------------------------
  // Rows ordered newest first, for getRecentSuggestions
  // ---------------------------------------------------------------------

  predicate NewestFirst(rows: seq<Suggestion>)
  {
    forall i, j :: 0 <= i < j < |rows| ==> rows[i].createdAt >= rows[j].createdAt
  }

  predicate DistinctIds(rows: seq<Suggestion>)
  {
    forall i, j :: 0 <= i < j < |rows| ==> rows[i].id != rows[j].id
  }

  /** Each of `rows` is the current row under its id. */
  predicate RowsOf(sugs: map<int, Suggestion>, rows: seq<Suggestion>)
  {
    forall i :: 0 <= i < |rows| ==> rows[i].id in sugs && sugs[rows[i].id] == rows[i]
  }

  function IdsOf(rows: seq<Suggestion>): set<int>
  {
    set i | 0 <= i < |rows| :: rows[i].id
  }

  lemma IdsOfAppend(rows: seq<Suggestion>, s: Suggestion)
    ensures IdsOf(rows + [s]) == IdsOf(rows) + {s.id}
  {
    var r := rows + [s];
    forall id | id in IdsOf(r)
      ensures id in IdsOf(rows) + {s.id}
    {
      var i :| 0 <= i < |r| && r[i].id == id;
      if i < |rows| {
        assert rows[i].id == id;
      }
    }
    forall id | id in IdsOf(rows)
      ensures id in IdsOf(r)
    {
      var i :| 0 <= i < |rows| && rows[i].id == id;
      assert r[i].id == id;
    }
    assert r[|rows|].id == s.id;
  }

  /** No row taken so far is older than a row still to be taken. */
  predicate NotOlderThanPending(rows: seq<Suggestion>, sugs: map<int, Suggestion>, pending: set<int>)
    requires pending <= sugs.Keys
  {
    forall i, j :: 0 <= i < |rows| && j in pending ==> rows[i].createdAt >= sugs[j].createdAt
  }

  /** One step of ordering the recent rows: taking the newest pending row
      keeps the rows newest first, without a repeated id. */
  lemma TakeNewest(sugs: map<int, Suggestion>, rows: seq<Suggestion>, pending: set<int>, id: int)
    requires pending <= sugs.Keys && id in pending
    requires forall j :: j in pending ==> sugs[j].createdAt <= sugs[id].createdAt
    requires sugs[id].id == id
    requires RowsOf(sugs, rows) && id !in IdsOf(rows)
    requires NotOlderThanPending(rows, sugs, pending) && NewestFirst(rows) && DistinctIds(rows)
    ensures var r := rows + [sugs[id]];
      && RowsOf(sugs, r)
      && IdsOf(r) == IdsOf(rows) + {id}
      && NotOlderThanPending(r, sugs, pending - {id})
      && NewestFirst(r) && DistinctIds(r)
  {
    var r := rows + [sugs[id]];
    IdsOfAppend(rows, sugs[id]);
    forall i | 0 <= i < |rows|
      ensures rows[i].id != id
    {
      assert rows[i].id in IdsOf(rows);
    }
  }

  /** The state of the scan in `getRecentSuggestions`: the rows taken so far
      are current, newest first, without a repeated id, no older than any
      row still pending, and together with the pending ids they make up the
      matching ids. */
  predicate Scanning(sugs: map<int, Suggestion>, rows: seq<Suggestion>, pending: set<int>, matching: set<int>)
  {
    && (forall id :: id in sugs ==> sugs[id].id == id)
    && pending <= matching <= sugs.Keys
    && RowsOf(sugs, rows)
    && IdsOf(rows) == matching - pending
    && NotOlderThanPending(rows, sugs, pending)
    && NewestFirst(rows) && DistinctIds(rows)
  }

  /** Taking the newest pending row keeps the scan's state. */
  lemma ScanStep(sugs: map<int, Suggestion>, rows: seq<Suggestion>, pending: set<int>, matching: set<int>, id: int)
    requires Scanning(sugs, rows, pending, matching)
    requires id in pending && forall j :: j in pending ==> sugs[j].createdAt <= sugs[id].createdAt
    ensures Scanning(sugs, rows + [sugs[id]], pending - {id}, matching)
  {
    assert id !in IdsOf(rows);
    TakeNewest(sugs, rows, pending, id);
    assert IdsOf(rows + [sugs[id]]) == matching - (pending - {id});
  }

  /** A non-empty set of ids holds one whose row is the newest. */
  lemma NewestExists(sugs: map<int, Suggestion>, pending: set<int>)
    requires pending <= sugs.Keys && exists j :: j in pending
    ensures exists id :: id in pending && forall j :: j in pending ==> sugs[j].createdAt <= sugs[id].createdAt
  {
    var w :| w in pending;
    var score := map j | j in pending :: -sugs[j].createdAt;
    LeastExists(pending, score, w);
    var m :| m in pending && forall j :: j in pending ==> score[m] <= score[j];
    assert forall j :: j in pending ==> sugs[j].createdAt <= sugs[m].createdAt;
  }

  lemma RowsOfMatching(sugs: map<int, Suggestion>, rows: seq<Suggestion>, since: int, matching: set<int>)
    requires RowsOf(sugs, rows) && IdsOf(rows) == matching
    requires matching == set id | id in sugs && sugs[id].createdAt > since
    ensures forall s :: s in rows <==> s.id in sugs && sugs[s.id] == s && s.createdAt > since
  {
    forall s: Suggestion | s.id in sugs && sugs[s.id] == s && s.createdAt > since
      ensures s in rows
    {
      assert s.id in IdsOf(rows);
      var i :| 0 <= i < |rows| && rows[i].id == s.id;
      assert rows[i] == s;
    }
    forall s: Suggestion | s in rows
      ensures s.id in sugs && sugs[s.id] == s && s.createdAt > since
    {
      var i :| 0 <= i < |rows| && rows[i] == s;
      assert s.id in IdsOf(rows);
    }
  }

  /** Every non-empty set of ids (here: one holding `x`) has an element
      whose score is least. */
  lemma {:induction false} LeastExists(ids: set<int>, score: map<int, int>, x: int)
    requires x in ids && ids <= score.Keys
    ensures exists m :: m in ids && forall j :: j in ids ==> score[m] <= score[j]
    decreases |ids|
  {
    var rest := ids - {x};
    if y :| y in rest {
      LeastExists(rest, score, y);
      var m :| m in rest && forall j :: j in rest ==> score[m] <= score[j];
      var least := if score[x] < score[m] then x else m;
      forall j | j in ids
        ensures score[least] <= score[j]
      {
        if j != x {
          assert j in rest;
        }
      }
      assert least in ids;
    } else {
      forall j | j in ids
        ensures score[x] <= score[j]
      {
        assert (j in rest) <==> j != x;
      }
    }
  }

  // ---------------------------------------------------------------------
  // The store
  // ---------------------------------------------------------------------

  class Store {
    /** `suggestions`, by `id`. */
    var suggestions: map<int, Suggestion>
    /** `votes`, by `(suggestion_id, user_id)`. */
    var votes: map<VoteKey, Vote>
    /** `edit_history`, in insertion order. */
    var history: seq<EditEntry>
    /** The AUTOINCREMENT counter of `suggestions`: the largest id ever used. */
    var lastId: nat

    ghost predicate Valid()
      reads this
    {
      && KeyedById(suggestions, lastId)
      && UniqueMessageIds(suggestions)
      && TypedVotes(votes)
      && VotesReferToRows(suggestions, votes)
      && HistoryRefersToRows(suggestions, history)
    }

    /** A freshly created database: empty tables. */
    constructor ()
      ensures Valid()
      ensures suggestions == map[] && votes == map[] && history == [] && lastId == 0
    {
      suggestions := map[];
      votes := map[];
      history := [];
      lastId := 0;
    }

    /** `createSuggestion`: INSERT of a new row. A `message_id` already in
        the table violates its UNIQUE constraint and nothing is inserted;
        otherwise the row gets the next AUTOINCREMENT id, larger than every
        id used before. */
    method CreateSuggestion(messageId: string, threadId: Option<string>, authorId: string,
                            authorUsername: string, content: string, createdAt: int)
      returns (r: Result<int>)
      requires Valid()
      modifies this
      ensures Valid()
      ensures votes == old(votes) && history == old(history)
      ensures MessageIdTaken(old(suggestions), messageId) ==>
        r == Err(UniqueViolation) && suggestions == old(suggestions) && lastId == old(lastId)
      ensures !MessageIdTaken(old(suggestions), messageId) ==>
        && r == Ok(old(lastId) + 1)
        && lastId == old(lastId) + 1
        && suggestions == old(suggestions)[r.value := Suggestion(r.value, messageId, threadId, None,
                                                                 authorId, authorUsername, content, createdAt)]
      ensures r.Ok? ==> forall id :: id in old(suggestions) ==> id < r.value
    {
      if exists id :: id in suggestions && suggestions[id].messageId == messageId {
        return Err(UniqueViolation);
      }
      var id := lastId + 1;
      suggestions := suggestions[id := Suggestion(id, messageId, threadId, None,
                                                  authorId, authorUsername, content, createdAt)];
      lastId := id;
      r := Ok(id);
    }

    /** `getSuggestionByMessageId`: the row with that `message_id`, if any
        (there is at most one). */
    method GetSuggestionByMessageId(messageId: string) returns (r: Option<Suggestion>)
      requires Valid()
      ensures r.Some? <==> MessageIdTaken(suggestions, messageId)
      ensures r.Some? ==>
        r.value.id in suggestions && suggestions[r.value.id] == r.value && r.value.messageId == messageId
    {
      if id :| id in suggestions && suggestions[id].messageId == messageId {
        r := Some(suggestions[id]);
      } else {
        r := None;
      }
    }

    /** `getSuggestionByThreadId`: a row whose `thread_id` is `threadId`; the
        column is not UNIQUE, and of several such rows the one with the
        smallest id is found first. */
    method GetSuggestionByThreadId(threadId: string) returns (r: Option<Suggestion>)
      requires Valid()
      ensures r.Some? <==> ThreadIdTaken(suggestions, threadId)
      ensures r.Some? ==> FirstInThread(suggestions, threadId, r.value)
    {
      if !exists id :: id in suggestions && suggestions[id].threadId == Some(threadId) {
        return None;
      }
      var w :| w in suggestions && suggestions[w].threadId == Some(threadId);
      var ids := set id | id in suggestions && suggestions[id].threadId == Some(threadId);
      var score := map j | j in ids :: j;
      LeastExists(ids, score, w);
      var m :| m in ids && forall j :: j in ids ==> score[m] <= score[j];
      r := Some(suggestions[m]);
      forall id | id in suggestions && suggestions[id].threadId == Some(threadId)
        ensures m <= id
      {
        assert id in ids;
      }
    }

    /** `upsertVote`: INSERT ... ON CONFLICT(suggestion_id, user_id) DO
        UPDATE. A type other than 'up'/'down' fails the CHECK constraint, a
        suggestion that does not exist fails the foreign key; otherwise the
        pair holds exactly one vote, of the given type and time, whether it
        held one before or not. */
    method UpsertVote(sid: int, uid: string, voteType: string, votedAt: int) returns (r: Status)
      requires Valid()
      modifies this
      ensures Valid()
      ensures !IsVoteType(voteType) ==> r == Failed(CheckViolation)
      ensures IsVoteType(voteType) && sid !in old(suggestions) ==> r == Failed(ForeignKeyViolation)
      ensures r.Done? <==> IsVoteType(voteType) && sid in old(suggestions)
      ensures votes == if r.Done? then old(votes)[(sid, uid) := Vote(voteType, votedAt)] else old(votes)
      ensures suggestions == old(suggestions) && history == old(history) && lastId == old(lastId)
    {
      if !IsVoteType(voteType) {
        return Failed(CheckViolation);
      }
      if sid !in suggestions {
        return Failed(ForeignKeyViolation);
      }
      votes := votes[(sid, uid) := Vote(voteType, votedAt)];
      r := Done;
    }

    /** `removeVote`: DELETE of that one pair's vote, if there is one. */
    method RemoveVote(sid: int, uid: string)
      requires Valid()
      modifies this
      ensures Valid()
      ensures votes == old(votes) - {(sid, uid)}
      ensures suggestions == old(suggestions) && history == old(history) && lastId == old(lastId)
    {
      votes := votes - {(sid, uid)};
    }

    /** `getUserVote`: that user's vote type on that suggestion, if any;
        always 'up' or 'down'. */
    function GetUserVote(sid: int, uid: string): (r: Option<string>)
      reads this
      ensures r.Some? <==> (sid, uid) in votes
      ensures r.Some? ==> r.value == votes[(sid, uid)].voteType
      ensures Valid() && r.Some? ==> IsVoteType(r.value)
    {
      if (sid, uid) in votes then Some(votes[(sid, uid)].voteType) else None
    }

    /** `countVotes`: the tally of the votes on `sid`, read from the table. */
    method CountVotes(sid: int) returns (t: Tally)
      requires Valid()
      ensures t == TallyOf(votes, sid)
      ensures t.upvotes + t.downvotes == |VotersOn(votes, sid)|
    {
      t := TallyOf(votes, sid);
      VotesOnAreOnePerVoter(votes, sid);
    }

    /** `updateThreadId`: sets `thread_id` of row `id` and nothing else; no
        row changes when there is no such id. */
    method UpdateThreadId(threadId: string, id: int)
      requires Valid()
      modifies this
      ensures Valid()
      ensures suggestions == if id in old(suggestions)
        then old(suggestions)[id := old(suggestions)[id].(threadId := Some(threadId))]
        else old(suggestions)
      ensures votes == old(votes) && history == old(history) && lastId == old(lastId)
    {
      if id in suggestions {
        suggestions := suggestions[id := suggestions[id].(threadId := Some(threadId))];
      }
    }

    /** `updateAuthorUsername`: sets `author_username` of row `id` and nothing
        else; no row changes when there is no such id. */
    method UpdateAuthorUsername(name: string, id: int)
      requires Valid()
      modifies this
      ensures Valid()
      ensures suggestions == if id in old(suggestions)
        then old(suggestions)[id := old(suggestions)[id].(authorUsername := name)]
        else old(suggestions)
      ensures votes == old(votes) && history == old(history) && lastId == old(lastId)
    {
      if id in suggestions {
        suggestions := suggestions[id := suggestions[id].(authorUsername := name)];
      }
    }

    /** `updateSuggestionContent`: sets `content` of row `id` and nothing
        else; no row changes when there is no such id. */
    method UpdateSuggestionContent(content: string, id: int)
      requires Valid()
      modifies this
      ensures Valid()
      ensures suggestions == if id in old(suggestions)
        then old(suggestions)[id := old(suggestions)[id].(content := content)]
        else old(suggestions)
      ensures votes == old(votes) && history == old(history) && lastId == old(lastId)
    {
      if id in suggestions {
        suggestions := suggestions[id := suggestions[id].(content := content)];
      }
    }

    /** `getRecentSuggestions`: exactly the rows created strictly after
        `since`, each once, newest first. */
    method GetRecentSuggestions(since: int) returns (rows: seq<Suggestion>)
      requires Valid()
      ensures forall s :: s in rows <==> s.id in suggestions && suggestions[s.id] == s && s.createdAt > since
      ensures NewestFirst(rows) && DistinctIds(rows)
    {
      rows := [];
      var pending := set id | id in suggestions && suggestions[id].createdAt > since;
      ghost var matching := pending;
      assert IdsOf(rows) == {};
      while exists j :: j in pending
        invariant Scanning(suggestions, rows, pending, matching)
        decreases |pending|
      {
        NewestExists(suggestions, pending);
        var id :| id in pending && forall j :: j in pending ==> suggestions[j].createdAt <= suggestions[id].createdAt;
        ScanStep(suggestions, rows, pending, matching, id);
        rows := rows + [suggestions[id]];
        pending := pending - {id};
      }
      assert pending == {};
      RowsOfMatching(suggestions, rows, since, matching);
    }

    /** `saveEditHistory`: appends one entry; a suggestion that does not
        exist fails the foreign key and nothing is appended. */
    method SaveEditHistory(sid: int, oldContent: string, newContent: string,
                           editorId: string, editorName: string, editedAt: int)
      returns (r: Status)
      requires Valid()
      modifies this
      ensures Valid()
      ensures r.Done? <==> sid in old(suggestions)
      ensures r.Failed? ==> r.error == ForeignKeyViolation
      ensures history == if r.Done?
        then old(history) + [EditEntry(sid, oldContent, newContent, editorId, editorName, editedAt)]
        else old(history)
      ensures suggestions == old(suggestions) && votes == old(votes) && lastId == old(lastId)
    {
      if sid !in suggestions {
        return Failed(ForeignKeyViolation);
      }
      history := history + [EditEntry(sid, oldContent, newContent, editorId, editorName, editedAt)];
      r := Done;
    }

    /** `getEditHistory`: the entries of `sid`, oldest first. */
    method GetEditHistory(sid: int) returns (h: seq<EditEntry>)
      requires Valid()
      ensures h == HistoryOf(history, sid)
    {
      h := HistoryOf(history, sid);
    }

    /** `deleteSuggestion`: DELETE of row `id`; the foreign keys cascade, so
        its votes and its history entries go with it and no orphan is left. */
    method DeleteSuggestion(id: int)
      requires Valid()
      modifies this
      ensures Valid()
      ensures suggestions == old(suggestions) - {id}
      ensures votes == VotesWithout(old(votes), id)
      ensures history == HistoryWithout(old(history), id)
      ensures lastId == old(lastId)
    {
      suggestions := suggestions - {id};
      votes := VotesWithout(votes, id);
      history := HistoryWithout(history, id);
    }
  }
}
