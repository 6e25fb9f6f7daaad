/** The vote buttons: decoding a button's custom id, the three-way toggle of
    one user's vote on one suggestion, and the recount that follows. */
module VoteHandler {
  import opened JsText
  import opened Database

  /** `interaction.customId` of a vote button: only ids starting with
      `vote_` are vote buttons; `vote_up` is an 'up' vote and every other
      `vote_*` id a 'down' vote. */
  function DecodeVoteType(customId: string): (t: Option<string>)
    ensures t.Some? <==> StartsWith(customId, "vote_")
    ensures t.Some? ==> IsVoteType(t.value)
    ensures t == Some("up") <==> customId == "vote_up"
    ensures t == Some("down") <==> StartsWith(customId, "vote_") && customId != "vote_up"
  {
    if !StartsWith(customId, "vote_") then None
    else if customId == "vote_up" then Some("up")
    else Some("down")
  }

  /** Which of the three replies a click earns. */
  datatype Effect =
    | Cast       // no vote before: the requested type is inserted
    | Changed    // a vote of the other type is overwritten
    | Retracted  // the same type again: the vote is removed

  /** The vote table after user `uid` clicks the button of type `t` on
      suggestion `sid`: a vote of that same type is removed, anything else
      becomes a vote of type `t` cast at `now`. */
  function Toggle(votes: map<VoteKey, Vote>, sid: int, uid: string, t: string, now: int): map<VoteKey, Vote>
  {
    var k := (sid, uid);
    if k in votes && votes[k].voteType == t then votes - {k} else votes[k := Vote(t, now)]
  }

  function EffectOf(votes: map<VoteKey, Vote>, sid: int, uid: string, t: string): Effect
  {
    var k := (sid, uid);
    if k in votes && votes[k].voteType == t then Retracted
    else if k in votes then Changed
    else Cast
  }

  /** What a click returns: nothing for an interaction that is not a vote
      button, "not found" for a message that is no suggestion, the reply
      kind of a change whose reply failed (the handler stops before the
      recount), or the reply kind and the tally recounted after the
      change. */
  datatype Outcome =
    | Ignored
    | NotFound
    | Unconfirmed(effect: Effect)
    | Counted(effect: Effect, tally: Tally)

  /** `handleInteraction`. The store's row for the clicked message is looked
      up by message id; the user's vote on it is toggled; the tally is read
      back from the table. `replied` is whether the reply to the click
      succeeded: when it fails the vote stays written but the handler ends
      before the recount. */
  method HandleInteraction(store: Store, isButton: bool, customId: string,
                           messageId: string, userId: string, now: int, replied: bool)
    returns (o: Outcome)
    requires store.Valid()
    modifies store
    ensures store.Valid()
    ensures store.suggestions == old(store.suggestions)
    ensures store.history == old(store.history) && store.lastId == old(store.lastId)
    ensures o.Ignored? <==> !isButton || DecodeVoteType(customId).None?
    ensures o.NotFound? <==>
      isButton && DecodeVoteType(customId).Some? && !MessageIdTaken(old(store.suggestions), messageId)
    ensures o.Unconfirmed? <==>
      isButton && DecodeVoteType(customId).Some? && MessageIdTaken(old(store.suggestions), messageId) && !replied
    ensures o.Ignored? || o.NotFound? ==> store.votes == old(store.votes)
    ensures o.Counted? || o.Unconfirmed? ==>
      forall sid :: sid in old(store.suggestions) && old(store.suggestions)[sid].messageId == messageId ==>
        var t := DecodeVoteType(customId).value;
        && store.votes == Toggle(old(store.votes), sid, userId, t, now)
        && o.effect == EffectOf(old(store.votes), sid, userId, t)
        && (o.Counted? ==> o.tally == TallyOf(store.votes, sid))
  {
    if !isButton {
      return Ignored;
    }
    var decoded := DecodeVoteType(customId);
    if decoded.None? {
      return Ignored;
    }
    var voteType := decoded.value;
    var suggestion := store.GetSuggestionByMessageId(messageId);
    if suggestion.None? {
      return NotFound;
    }
    var sid := suggestion.value.id;
    var currentVote := store.GetUserVote(sid, userId);
    var effect;
    if currentVote.Some? && currentVote.value == voteType {
      store.RemoveVote(sid, userId);
      effect := Retracted;
    } else {
      var status := store.UpsertVote(sid, userId, voteType, now);
      assert status.Done?;
      effect := if currentVote.Some? then Changed else Cast;
    }
    if !replied {
      return Unconfirmed(effect);
    }
    var tally := store.CountVotes(sid);
    o := Counted(effect, tally);
  }

  // ---------------------------------------------------------------------
  // What a toggle does to the table and to the tally
  // ---------------------------------------------------------------------

  /** After a click the user holds a vote of the clicked type, unless the
      click retracted a vote of that type, in which case the user holds
      none; every other user's and every other suggestion's vote is as it
      was. */
  lemma ToggleTouchesOnlyTheVoter(votes: map<VoteKey, Vote>, sid: int, uid: string, t: string, now: int)
    ensures var after := Toggle(votes, sid, uid, t, now);
      && ((sid, uid) in after <==> EffectOf(votes, sid, uid, t) != Retracted)
      && ((sid, uid) in after ==> after[(sid, uid)] == Vote(t, now))
      && forall k :: k != (sid, uid) ==> (k in after <==> k in votes) && (k in after ==> after[k] == votes[k])
  {
  }

  /** A toggle keeps every stored vote type valid. */
  lemma ToggleKeepsTypes(votes: map<VoteKey, Vote>, sid: int, uid: string, t: string, now: int)
    requires TypedVotes(votes) && IsVoteType(t)
    ensures TypedVotes(Toggle(votes, sid, uid, t, now))
  {
  }

  lemma {:induction false} VotesOfTypeAfterRemove(votes: map<VoteKey, Vote>, k: VoteKey, tt: string)
    ensures VotesOfType(votes - {k}, k.0, tt) == VotesOfType(votes, k.0, tt) - {k}
  {
  }

  lemma {:induction false} VotesOfTypeAfterSet(votes: map<VoteKey, Vote>, k: VoteKey, v: Vote, tt: string)
    ensures VotesOfType(votes[k := v], k.0, tt)
         == if v.voteType == tt then VotesOfType(votes, k.0, tt) + {k} else VotesOfType(votes, k.0, tt) - {k}
  {
  }

  /** Retracting lowers the tally of the retracted type by one and leaves
      the other type's tally as it was. */
  lemma ToggleRetractTally(votes: map<VoteKey, Vote>, sid: int, uid: string, t: string, now: int)
    requires IsVoteType(t) && EffectOf(votes, sid, uid, t) == Retracted
    ensures var before, after := TallyOf(votes, sid), TallyOf(Toggle(votes, sid, uid, t, now), sid);
      if t == "up" then after.upvotes + 1 == before.upvotes && after.downvotes == before.downvotes
      else after.upvotes == before.upvotes && after.downvotes + 1 == before.downvotes
  {
    var k := (sid, uid);
    VotesOfTypeAfterRemove(votes, k, "up");
    VotesOfTypeAfterRemove(votes, k, "down");
    assert k in VotesOfType(votes, sid, t);
  }

  /** A first vote raises the tally of its type by one and leaves the
      other type's tally as it was. */
  lemma ToggleCastTally(votes: map<VoteKey, Vote>, sid: int, uid: string, t: string, now: int)
    requires IsVoteType(t) && EffectOf(votes, sid, uid, t) == Cast
    ensures var before, after := TallyOf(votes, sid), TallyOf(Toggle(votes, sid, uid, t, now), sid);
      if t == "up" then after == Tally(before.upvotes + 1, before.downvotes)
      else after == Tally(before.upvotes, before.downvotes + 1)
  {
    var k := (sid, uid);
    VotesOfTypeAfterSet(votes, k, Vote(t, now), "up");
    VotesOfTypeAfterSet(votes, k, Vote(t, now), "down");
    assert k !in VotesOfType(votes, sid, "up") && k !in VotesOfType(votes, sid, "down");
  }

  /** Switching sides moves one vote from the old type's tally to the new
      type's tally. */
  lemma ToggleChangeTally(votes: map<VoteKey, Vote>, sid: int, uid: string, t: string, now: int)
    requires IsVoteType(t) && TypedVotes(votes) && EffectOf(votes, sid, uid, t) == Changed
    ensures var before, after := TallyOf(votes, sid), TallyOf(Toggle(votes, sid, uid, t, now), sid);
      if t == "up" then after.upvotes == before.upvotes + 1 && after.downvotes + 1 == before.downvotes
      else after.upvotes + 1 == before.upvotes && after.downvotes == before.downvotes + 1
  {
    var k := (sid, uid);
    var other := if t == "up" then "down" else "up";
    assert votes[k].voteType == other;
    VotesOfTypeAfterSet(votes, k, Vote(t, now), "up");
    VotesOfTypeAfterSet(votes, k, Vote(t, now), "down");
    assert k in VotesOfType(votes, sid, other) && k !in VotesOfType(votes, sid, t);
  }

  /** A click on one suggestion leaves every other suggestion's tally as it
      was. */
  lemma ToggleOtherTally(votes: map<VoteKey, Vote>, sid: int, uid: string, t: string, now: int, other: int)
    requires other != sid
    ensures TallyOf(Toggle(votes, sid, uid, t, now), other) == TallyOf(votes, other)
  {
    var after := Toggle(votes, sid, uid, t, now);
    assert VotesOfType(after, other, "up") == VotesOfType(votes, other, "up");
    assert VotesOfType(after, other, "down") == VotesOfType(votes, other, "down");
  }

  /** Clicking the same button twice, starting with no vote, leaves the user
      with no vote again and the table as it was. */
  lemma ToggleTwiceFromNone(votes: map<VoteKey, Vote>, sid: int, uid: string, t: string, now1: int, now2: int)
    requires (sid, uid) !in votes
    ensures Toggle(Toggle(votes, sid, uid, t, now1), sid, uid, t, now2) == votes
    ensures EffectOf(votes, sid, uid, t) == Cast
    ensures EffectOf(Toggle(votes, sid, uid, t, now1), sid, uid, t) == Retracted
  {
    assert votes[(sid, uid) := Vote(t, now1)] - {(sid, uid)} == votes;
  }

  /** Up, then up again, then down, then down again, from no vote: the user
      votes, retracts, votes against and retracts again, and the tally of
      the suggestion goes 1/0, 0/0, 0/1, 0/0 above where it started. */
  lemma UpUpDownDown(votes: map<VoteKey, Vote>, sid: int, uid: string, n1: int, n2: int, n3: int, n4: int)
    requires TypedVotes(votes) && (sid, uid) !in votes
    ensures var v1 := Toggle(votes, sid, uid, "up", n1);
      var v2 := Toggle(v1, sid, uid, "up", n2);
      var v3 := Toggle(v2, sid, uid, "down", n3);
      var v4 := Toggle(v3, sid, uid, "down", n4);
      var t0 := TallyOf(votes, sid);
      && TallyOf(v1, sid) == Tally(t0.upvotes + 1, t0.downvotes)
      && v2 == votes
      && TallyOf(v3, sid) == Tally(t0.upvotes, t0.downvotes + 1)
      && v4 == votes
  {
    ToggleCastTally(votes, sid, uid, "up", n1);
    ToggleTwiceFromNone(votes, sid, uid, "up", n1, n2);
    ToggleCastTally(votes, sid, uid, "down", n3);
    ToggleTwiceFromNone(votes, sid, uid, "down", n3, n4);
  }
}
