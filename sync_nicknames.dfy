/** The periodic reconciliation of author names: every suggestion of the
    last seven days whose author's current display name differs from the
    stored one gets the current name, when its message can be refreshed. */
module SyncNicknames {
  import opened Database

  /** Seven days in milliseconds: `7 * 24 * 60 * 60 * 1000`. */
  const SyncWindow: int := 7 * 24 * 60 * 60 * 1000

  /** Whether the pass rewrites row `s`. `members` maps an author id to the
      member's current display name (an author that cannot be fetched is
      absent); `refreshable` holds the message ids whose suggestion message
      can be fetched, carries an embed and accepts the edit. */
  predicate NeedsSync(s: Suggestion, members: map<string, string>, refreshable: set<string>)
  {
    s.authorId in members && members[s.authorId] != s.authorUsername && s.messageId in refreshable
  }

  /** The ids of the rows created after `since`. */
  function RecentIds(sugs: map<int, Suggestion>, since: int): (r: set<int>)
    ensures r <= sugs.Keys
  {
    set id | id in sugs && sugs[id].createdAt > since
  }

  /** The table after examining the rows with ids in `ids`: each of them
      that needs it carries its author's current name; every other row is
      as it was. */
  function ResyncedOn(sugs: map<int, Suggestion>, ids: set<int>, members: map<string, string>,
                      refreshable: set<string>): (r: map<int, Suggestion>)
    ensures r.Keys == sugs.Keys
  {
    map id | id in sugs ::
      if id in ids && NeedsSync(sugs[id], members, refreshable)
      then sugs[id].(authorUsername := members[sugs[id].authorId])
      else sugs[id]
  }

  /** The rows with ids in `ids` that the pass rewrites. */
  function StaleAmong(sugs: map<int, Suggestion>, ids: set<int>, members: map<string, string>,
                      refreshable: set<string>): (r: set<int>)
    ensures r <= ids
  {
    set id | id in ids && id in sugs && NeedsSync(sugs[id], members, refreshable)
  }

  /** The table after a whole pass at time `now`. */
  function Resynced(sugs: map<int, Suggestion>, now: int, members: map<string, string>,
                    refreshable: set<string>): map<int, Suggestion>
  {
    ResyncedOn(sugs, RecentIds(sugs, now - SyncWindow), members, refreshable)
  }

  /** `syncNicknames`. `channelFound` is whether the suggestions channel
      could be fetched; the result is `updatedCount`. */
  method SyncNicknames(store: Store, channelFound: bool, now: int, members: map<string, string>,
                       refreshable: set<string>)
    returns (updated: nat)
    requires store.Valid()
    modifies store
    ensures store.Valid()
    ensures store.votes == old(store.votes) && store.history == old(store.history)
    ensures store.lastId == old(store.lastId)
    ensures !channelFound ==> store.suggestions == old(store.suggestions) && updated == 0
    ensures channelFound ==>
      && store.suggestions == Resynced(old(store.suggestions), now, members, refreshable)
      && updated == |StaleAmong(old(store.suggestions), RecentIds(old(store.suggestions), now - SyncWindow),
                                members, refreshable)|
  {
    if !channelFound {
      return 0;
    }
    var sevenDaysAgo := now - SyncWindow;
    var recent := store.GetRecentSuggestions(sevenDaysAgo);
    RecentRowsIds(store.suggestions, recent, sevenDaysAgo);
    if |recent| == 0 {
      assert recent == [];
      NoneExamined(store.suggestions, members, refreshable);
      return 0;
    }
    updated := SyncRows(store, recent, members, refreshable);
  }

  /** The loop of `syncNicknames` over the recent rows, each examined once
      against the table as it was when the rows were read. */
  method SyncRows(store: Store, recent: seq<Suggestion>, members: map<string, string>,
                  refreshable: set<string>)
    returns (updated: nat)
    requires store.Valid() && DistinctIds(recent)
    requires forall j :: 0 <= j < |recent| ==> recent[j].id in store.suggestions && recent[j] == store.suggestions[recent[j].id]
    modifies store
    ensures store.Valid()
    ensures store.votes == old(store.votes) && store.history == old(store.history)
    ensures store.lastId == old(store.lastId)
    ensures store.suggestions == ResyncedOn(old(store.suggestions), IdsOf(recent), members, refreshable)
    ensures updated == |StaleAmong(old(store.suggestions), IdsOf(recent), members, refreshable)|
  {
    ghost var start := store.suggestions;
    updated := 0;
    NoneExamined(start, members, refreshable);
    for i := 0 to |recent|
      invariant store.Valid()
      invariant store.votes == old(store.votes) && store.history == old(store.history)
      invariant store.lastId == old(store.lastId)
      invariant store.suggestions == ResyncedOn(start, IdsOf(recent[..i]), members, refreshable)
      invariant updated == |StaleAmong(start, IdsOf(recent[..i]), members, refreshable)|
    {
      var suggestion := recent[i];
      ExamineNext(start, recent, i, members, refreshable);
      ghost var done := IdsOf(recent[..i]);
      if suggestion.authorId !in members {
        SkipRow(start, done, suggestion.id, members, refreshable);
        continue;
      }
      var currentDisplayName := members[suggestion.authorId];
      if currentDisplayName == suggestion.authorUsername {
        SkipRow(start, done, suggestion.id, members, refreshable);
        continue;
      }
      if suggestion.messageId !in refreshable {
        SkipRow(start, done, suggestion.id, members, refreshable);
        continue;
      }
      WriteRow(start, done, suggestion.id, members, refreshable);
      store.UpdateAuthorUsername(currentDisplayName, suggestion.id);
      updated := updated + 1;
    }
    assert recent[..|recent|] == recent;
  }

  // ---------------------------------------------------------------------
  // The loop's steps
  // ---------------------------------------------------------------------

  /** The rows `getRecentSuggestions` returns are those of `RecentIds`. */
  lemma RecentRowsIds(sugs: map<int, Suggestion>, rows: seq<Suggestion>, since: int)
    requires forall id :: id in sugs ==> sugs[id].id == id
    requires forall s :: s in rows <==> s.id in sugs && sugs[s.id] == s && s.createdAt > since
    ensures IdsOf(rows) == RecentIds(sugs, since)
    ensures forall i :: 0 <= i < |rows| ==> rows[i].id in sugs
    ensures forall i :: 0 <= i < |rows| ==> rows[i] == sugs[rows[i].id]
  {
    forall id | id in RecentIds(sugs, since)
      ensures id in IdsOf(rows)
    {
      assert sugs[id] in rows;
      var i :| 0 <= i < |rows| && rows[i] == sugs[id];
    }
    forall id | id in IdsOf(rows)
      ensures id in RecentIds(sugs, since)
    {
      var i :| 0 <= i < |rows| && rows[i].id == id;
      assert rows[i] in rows;
    }
    forall i | 0 <= i < |rows|
      ensures rows[i] == sugs[rows[i].id]
    {
      assert rows[i] in rows;
    }
  }

  lemma NoneExamined(sugs: map<int, Suggestion>, members: map<string, string>, refreshable: set<string>)
    ensures ResyncedOn(sugs, IdsOf([]), members, refreshable) == sugs
    ensures StaleAmong(sugs, IdsOf([]), members, refreshable) == {}
  {
    assert IdsOf([]) == {};
  }

  /** Examining row `i` of the recent rows: its id is new to the loop, and
      its row is still as it was at the start. */
  lemma ExamineNext(sugs: map<int, Suggestion>, rows: seq<Suggestion>, i: nat,
                    members: map<string, string>, refreshable: set<string>)
    requires i < |rows| && DistinctIds(rows)
    requires forall j :: 0 <= j < |rows| ==> rows[j].id in sugs && rows[j] == sugs[rows[j].id]
    ensures var done, id := IdsOf(rows[..i]), rows[i].id;
      && IdsOf(rows[..i + 1]) == done + {id}
      && id !in done
      && ResyncedOn(sugs, done, members, refreshable)[id] == sugs[id]
  {
    assert rows[..i + 1] == rows[..i] + [rows[i]];
    IdsOfAppend(rows[..i], rows[i]);
  }

  /** A row that needs no rewrite leaves the table and the count as they
      were. */
  lemma SkipRow(sugs: map<int, Suggestion>, done: set<int>, id: int,
                members: map<string, string>, refreshable: set<string>)
    requires id in sugs && !NeedsSync(sugs[id], members, refreshable)
    ensures ResyncedOn(sugs, done + {id}, members, refreshable) == ResyncedOn(sugs, done, members, refreshable)
    ensures StaleAmong(sugs, done + {id}, members, refreshable) == StaleAmong(sugs, done, members, refreshable)
  {
  }

  /** A row that needs a rewrite gets its author's current name and adds
      one to the count. */
  lemma WriteRow(sugs: map<int, Suggestion>, done: set<int>, id: int,
                 members: map<string, string>, refreshable: set<string>)
    requires id in sugs && id !in done && NeedsSync(sugs[id], members, refreshable)
    ensures ResyncedOn(sugs, done + {id}, members, refreshable)
         == ResyncedOn(sugs, done, members, refreshable)[id := sugs[id].(authorUsername := members[sugs[id].authorId])]
    ensures StaleAmong(sugs, done + {id}, members, refreshable) == StaleAmong(sugs, done, members, refreshable) + {id}
    ensures |StaleAmong(sugs, done + {id}, members, refreshable)| == |StaleAmong(sugs, done, members, refreshable)| + 1
  {
  }

  // ---------------------------------------------------------------------
  // What a pass does
  // ---------------------------------------------------------------------

  /** A pass rewrites only author names, only of recent rows, and exactly
      those that need it; no row appears or disappears. */
  lemma PassChangesOnlyNames(sugs: map<int, Suggestion>, now: int, members: map<string, string>,
                             refreshable: set<string>)
    ensures var after := Resynced(sugs, now, members, refreshable);
      && after.Keys == sugs.Keys
      && forall id :: id in sugs ==>
        && after[id] == sugs[id].(authorUsername := after[id].authorUsername)
        && (after[id] != sugs[id] <==> sugs[id].createdAt > now - SyncWindow && NeedsSync(sugs[id], members, refreshable))
        && (after[id] != sugs[id] ==> after[id].authorUsername == members[sugs[id].authorId])
  {
  }

  /** `updatedCount` never exceeds the number of recent suggestions. */
  lemma CountBounded(sugs: map<int, Suggestion>, since: int, members: map<string, string>,
                     refreshable: set<string>)
    ensures |StaleAmong(sugs, RecentIds(sugs, since), members, refreshable)| <= |RecentIds(sugs, since)|
  {
    var stale := StaleAmong(sugs, RecentIds(sugs, since), members, refreshable);
    var recent := RecentIds(sugs, since);
    assert recent == stale + (recent - stale);
  }

  /** A second pass at the same time or later, with the same current names
      and the same refreshable messages, finds nothing to rewrite and leaves
      the table as the first pass left it: its window holds only rows the
      first pass already examined, and the first pass leaves none of them
      needing a rewrite. */
  lemma SecondPassIsNoOp(sugs: map<int, Suggestion>, now: int, now2: int, members: map<string, string>,
                         refreshable: set<string>)
    requires now <= now2
    ensures var after := Resynced(sugs, now, members, refreshable);
      && StaleAmong(after, RecentIds(after, now2 - SyncWindow), members, refreshable) == {}
      && Resynced(after, now2, members, refreshable) == after
  {
    var after := Resynced(sugs, now, members, refreshable);
    forall id | id in after && after[id].createdAt > now2 - SyncWindow
      ensures !NeedsSync(after[id], members, refreshable)
    {
      assert sugs[id].createdAt > now - SyncWindow;
      if !NeedsSync(sugs[id], members, refreshable) {
        assert after[id] == sugs[id];
      }
    }
  }
}
