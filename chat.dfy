/** The conversation history of routes/chat.js: one table of conversations,
    every read and write scoped by the owner taken from the caller's token.
    The message list of a conversation is an opaque value `M` (the route
    stores it as JSON text and parses it back). List and get are pure
    lookups; create, update and delete are methods of `ChatHistory`. */
module Chat {
  import opened Outcomes

  /** A row of `chat_history`. `title` and `messages` are optional because an
      update writes whatever the request carried, missing fields included. */
  datatype Conversation<M> = Conversation(
    id: nat,
    owner: nat,
    title: Option<string>,
    messages: Option<M>,
    createdAt: int,
    updatedAt: int)

  /** The columns the list handler selects. */
  datatype Summary = Summary(id: nat, title: Option<string>, createdAt: int, updatedAt: int)

  /** The body of a 201 reply to create. */
  datatype Created<M> = Created(id: nat, title: string, messages: M, createdAt: int, updatedAt: int)

  const NotFound := Refused(404, "Conversation not found")
  const TitleAndMessagesRequired := Refused(400, "Title and messages are required")
  const ConversationUpdated := "Conversation updated successfully"
  const ConversationDeleted := "Conversation deleted successfully"

  /** The `WHERE id = ? AND user_id = ?` of get, update and delete. */
  predicate SelectedBy<M>(c: Conversation<M>, id: nat, owner: nat) {
    c.id == id && c.owner == owner
  }

  /** JavaScript falsiness of the two required fields of create: a missing
      or empty title, or missing messages. */
  predicate MissingField<M>(title: Option<string>, messages: Option<M>) {
    title.None? || title.value == "" || messages.None?
  }

  // ---------------------------------------------------------------------
  // Table invariant: auto-increment ids, rows kept in insertion order.

  ghost predicate IdsBelow<M>(rows: seq<Conversation<M>>, nextId: nat) {
    forall i :: 0 <= i < |rows| ==> rows[i].id < nextId
  }

  ghost predicate IdsIncreasing<M>(rows: seq<Conversation<M>>) {
    forall i, j :: 0 <= i < j < |rows| ==> rows[i].id < rows[j].id
  }

  ghost predicate TableValid<M>(rows: seq<Conversation<M>>, nextId: nat) {
    IdsBelow(rows, nextId) && IdsIncreasing(rows)
  }

  // ---------------------------------------------------------------------
  // GET /history

  /** The rows of one owner, in table order. */
  function Owned<M(==,!new)>(rows: seq<Conversation<M>>, owner: nat): (r: seq<Conversation<M>>)
    ensures forall c :: c in r <==> c in rows && c.owner == owner
  {
    if rows == [] then []
    else if rows[0].owner == owner then [rows[0]] + Owned(rows[1..], owner)
    else Owned(rows[1..], owner)
  }

  function SummaryOf<M>(c: Conversation<M>): Summary {
    Summary(c.id, c.title, c.createdAt, c.updatedAt)
  }

  function Summaries<M>(cs: seq<Conversation<M>>): (r: seq<Summary>)
    ensures |r| == |cs|
    ensures forall i :: 0 <= i < |cs| ==> r[i] == SummaryOf(cs[i])
  {
    if cs == [] then [] else [SummaryOf(cs[0])] + Summaries(cs[1..])
  }

  /** `ORDER BY updated_at DESC`. */
  ghost predicate NewestFirst(ss: seq<Summary>) {
    forall i, j :: 0 <= i < j < |ss| ==> ss[i].updatedAt >= ss[j].updatedAt
  }

  function InsertByRecency(s: Summary, ss: seq<Summary>): (r: seq<Summary>)
    requires NewestFirst(ss)
    ensures NewestFirst(r)
    ensures multiset(r) == multiset(ss) + multiset{s}
  {
    if ss == [] then [s]
    else if s.updatedAt >= ss[0].updatedAt then
      NewestIsFirst(ss);
      PrependKeepsNewestFirst(s, ss);
      [s] + ss
    else
      var rest := InsertByRecency(s, ss[1..]);
      KeepHead(s, ss, rest);
      [ss[0]] + rest
  }

  /** Putting back the head of `ss` in front of the insertion into its tail. */
  lemma KeepHead(s: Summary, ss: seq<Summary>, rest: seq<Summary>)
    requires NewestFirst(ss) && ss != [] && s.updatedAt < ss[0].updatedAt
    requires NewestFirst(rest) && multiset(rest) == multiset(ss[1..]) + multiset{s}
    ensures NewestFirst([ss[0]] + rest)
    ensures multiset([ss[0]] + rest) == multiset(ss) + multiset{s}
  {
    assert ss == [ss[0]] + ss[1..];
    NewestIsFirst(ss);
    forall y | y in rest
      ensures y.updatedAt <= ss[0].updatedAt
    {
      assert y in multiset(rest);
    }
    PrependKeepsNewestFirst(ss[0], rest);
  }

  /** The head of a list ordered newest first is at least as recent as every element. */
  lemma NewestIsFirst(ss: seq<Summary>)
    requires NewestFirst(ss) && ss != []
    ensures forall y :: y in ss ==> y.updatedAt <= ss[0].updatedAt
  {
    forall y | y in ss
      ensures y.updatedAt <= ss[0].updatedAt
    {
      var k :| 0 <= k < |ss| && ss[k] == y;
      if k > 0 {
        assert ss[0].updatedAt >= ss[k].updatedAt;
      }
    }
  }

  lemma PrependKeepsNewestFirst(x: Summary, ss: seq<Summary>)
    requires NewestFirst(ss)
    requires forall y :: y in ss ==> y.updatedAt <= x.updatedAt
    ensures NewestFirst([x] + ss)
  {
    var r := [x] + ss;
    forall i, j | 0 <= i < j < |r|
      ensures r[i].updatedAt >= r[j].updatedAt
    {
      assert r[j] == ss[j - 1];
      if i > 0 {
        assert r[i] == ss[i - 1];
      }
    }
  }

  /** A stable insertion sort, newest first; rows with equal `updatedAt`
      keep their table order. */
  function SortNewestFirst(ss: seq<Summary>): (r: seq<Summary>)
    ensures NewestFirst(r)
    ensures multiset(r) == multiset(ss)
  {
    if ss == [] then []
    else
      assert ss == [ss[0]] + ss[1..];
      InsertByRecency(ss[0], SortNewestFirst(ss[1..]))
  }

  /** The list handler: the caller's conversations, newest first. */
  function History<M(==,!new)>(rows: seq<Conversation<M>>, owner: nat): (r: seq<Summary>)
    ensures NewestFirst(r)
    ensures multiset(r) == multiset(Summaries(Owned(rows, owner)))
  {
    SortNewestFirst(Summaries(Owned(rows, owner)))
  }

  /** The list shows a summary exactly when the caller owns a row with it. */
  lemma HistoryListsOwnedRows<M(!new)>(rows: seq<Conversation<M>>, owner: nat, s: Summary)
    ensures s in History(rows, owner) <==> exists c :: c in rows && c.owner == owner && SummaryOf(c) == s
  {
    var owned := Owned(rows, owner);
    var h := History(rows, owner);
    assert s in h <==> s in Summaries(owned) by {
      assert s in h <==> s in multiset(h);
    }
    if s in Summaries(owned) {
      var i :| 0 <= i < |owned| && Summaries(owned)[i] == s;
      assert owned[i] in owned;
    }
    if c :| c in rows && c.owner == owner && SummaryOf(c) == s {
      assert c in owned;
      var i :| 0 <= i < |owned| && owned[i] == c;
      assert Summaries(owned)[i] == s;
    }
  }

  // ---------------------------------------------------------------------
  // GET /history/:id

  /** The first row with this id and owner, or "Conversation not found". */
  function Get<M(==,!new)>(rows: seq<Conversation<M>>, id: nat, owner: nat): (r: Result<Conversation<M>>)
    ensures r.Ok? ==> r.value in rows && SelectedBy(r.value, id, owner)
    ensures r.Err? ==> r.failure == NotFound && forall c :: c in rows ==> !SelectedBy(c, id, owner)
  {
    if rows == [] then Err(NotFound)
    else if SelectedBy(rows[0], id, owner) then Ok(rows[0])
    else Get(rows[1..], id, owner)
  }

  /** With distinct ids, get returns the caller's row with that id whenever
      there is one. */
  lemma GetFindsOwnedRow<M(!new)>(rows: seq<Conversation<M>>, c: Conversation<M>)
    requires IdsIncreasing(rows)
    requires c in rows
    ensures Get(rows, c.id, c.owner) == Ok(c)
  {
    var r := Get(rows, c.id, c.owner);
    var i :| 0 <= i < |rows| && rows[i] == c;
    var j :| 0 <= j < |rows| && rows[j] == r.value;
    assert i == j;
  }

  // ---------------------------------------------------------------------
  // PUT /history/:id and DELETE /history/:id

  /** How many rows the `WHERE id = ? AND user_id = ?` selects, which is
      the `affectedRows` the handlers check. */
  function CountMatching<M>(rows: seq<Conversation<M>>, id: nat, owner: nat): (r: nat)
    ensures r == 0 <==> forall i :: 0 <= i < |rows| ==> !SelectedBy(rows[i], id, owner)
    ensures r <= |rows|
  {
    if rows == [] then 0
    else (if SelectedBy(rows[0], id, owner) then 1 else 0) + CountMatching(rows[1..], id, owner)
  }

  /** The `UPDATE ... SET title = ?, messages = ?` over the selected rows. */
  function Rewrite<M>(rows: seq<Conversation<M>>, id: nat, owner: nat, title: Option<string>, messages: Option<M>)
    : (r: seq<Conversation<M>>)
    ensures |r| == |rows|
    ensures forall i :: 0 <= i < |rows| ==>
      r[i] == if SelectedBy(rows[i], id, owner) then rows[i].(title := title, messages := messages) else rows[i]
  {
    if rows == [] then []
    else
      var head := if SelectedBy(rows[0], id, owner) then rows[0].(title := title, messages := messages) else rows[0];
      [head] + Rewrite(rows[1..], id, owner, title, messages)
  }

  /** The `DELETE` of the selected rows, keeping the others in order. */
  function Remove<M(==,!new)>(rows: seq<Conversation<M>>, id: nat, owner: nat): (r: seq<Conversation<M>>)
    ensures forall c :: c in r <==> c in rows && !SelectedBy(c, id, owner)
    ensures |r| == |rows| - CountMatching(rows, id, owner)
  {
    if rows == [] then []
    else if SelectedBy(rows[0], id, owner) then Remove(rows[1..], id, owner)
    else [rows[0]] + Remove(rows[1..], id, owner)
  }

  /** An update that selects nothing writes nothing. */
  lemma {:induction false} RewriteWithoutMatch<M>(rows: seq<Conversation<M>>, id: nat, owner: nat,
                                                title: Option<string>, messages: Option<M>)
    requires CountMatching(rows, id, owner) == 0
    ensures Rewrite(rows, id, owner, title, messages) == rows
  {
    if rows != [] {
      assert CountMatching(rows[1..], id, owner) == 0;
      RewriteWithoutMatch(rows[1..], id, owner, title, messages);
      assert rows == [rows[0]] + rows[1..];
    }
  }

  /** A delete that selects nothing removes nothing. */
  lemma {:induction false} RemoveWithoutMatch<M(!new)>(rows: seq<Conversation<M>>, id: nat, owner: nat)
    requires CountMatching(rows, id, owner) == 0
    ensures Remove(rows, id, owner) == rows
  {
    if rows != [] {
      assert !SelectedBy(rows[0], id, owner);
      assert CountMatching(rows[1..], id, owner) == 0;
      RemoveWithoutMatch(rows[1..], id, owner);
    }
  }

  /** With distinct ids an update or delete selects at most one row. */
  lemma {:induction false} AtMostOneMatch<M>(rows: seq<Conversation<M>>, id: nat, owner: nat)
    requires IdsIncreasing(rows)
    ensures CountMatching(rows, id, owner) <= 1
  {
    if rows != [] {
      assert IdsIncreasing(rows[1..]);
      AtMostOneMatch(rows[1..], id, owner);
      if SelectedBy(rows[0], id, owner) {
        assert forall i :: 0 <= i < |rows[1..]| ==> !SelectedBy(rows[1..][i], id, owner) by {
          forall i | 0 <= i < |rows[1..]|
            ensures !SelectedBy(rows[1..][i], id, owner)
          {
            assert rows[1..][i] == rows[i + 1];
            assert rows[0].id < rows[i + 1].id;
          }
        }
      }
    }
  }

  // ---------------------------------------------------------------------
  // The invariant is kept by every write.

  lemma RewriteKeepsValid<M>(rows: seq<Conversation<M>>, nextId: nat, id: nat, owner: nat,
                             title: Option<string>, messages: Option<M>)
    requires TableValid(rows, nextId)
    ensures TableValid(Rewrite(rows, id, owner, title, messages), nextId)
  {
    var r := Rewrite(rows, id, owner, title, messages);
    assert forall i :: 0 <= i < |r| ==> r[i].id == rows[i].id;
  }

  /** Every row kept by a delete was in the table. */
  lemma RemoveKeepsIdsBelow<M(!new)>(rows: seq<Conversation<M>>, nextId: nat, id: nat, owner: nat)
    requires IdsBelow(rows, nextId)
    ensures IdsBelow(Remove(rows, id, owner), nextId)
  {
    var r := Remove(rows, id, owner);
    forall i | 0 <= i < |r|
      ensures r[i].id < nextId
    {
      assert r[i] in rows;
    }
  }

  lemma {:induction false} RemoveKeepsIdsIncreasing<M(!new)>(rows: seq<Conversation<M>>, id: nat, owner: nat)
    requires IdsIncreasing(rows)
    ensures IdsIncreasing(Remove(rows, id, owner))
  {
    if rows != [] {
      var tail := rows[1..];
      assert IdsIncreasing(tail);
      RemoveKeepsIdsIncreasing(tail, id, owner);
      var rest := Remove(tail, id, owner);
      if !SelectedBy(rows[0], id, owner) {
        forall c | c in rest
          ensures rows[0].id < c.id
        {
          assert c in tail;
        }
        PrependKeepsIdsIncreasing(rows[0], rest);
      }
    }
  }

  lemma PrependKeepsIdsIncreasing<M(!new)>(x: Conversation<M>, rest: seq<Conversation<M>>)
    requires IdsIncreasing(rest)
    requires forall c :: c in rest ==> x.id < c.id
    ensures IdsIncreasing([x] + rest)
  {
    var r := [x] + rest;
    forall i, j | 0 <= i < j < |r|
      ensures r[i].id < r[j].id
    {
      assert r[j] == rest[j - 1];
      if i > 0 {
        assert r[i] == rest[i - 1];
      }
    }
  }

  lemma RemoveKeepsValid<M(!new)>(rows: seq<Conversation<M>>, nextId: nat, id: nat, owner: nat)
    requires TableValid(rows, nextId)
    ensures TableValid(Remove(rows, id, owner), nextId)
  {
    RemoveKeepsIdsBelow(rows, nextId, id, owner);
    RemoveKeepsIdsIncreasing(rows, id, owner);
  }

  lemma CreateKeepsValid<M>(rows: seq<Conversation<M>>, nextId: nat, c: Conversation<M>)
    requires TableValid(rows, nextId)
    requires c.id == nextId
    ensures TableValid(rows + [c], nextId + 1)
  {
  }

  // ---------------------------------------------------------------------
  // Ownership isolation: a write by one owner never changes what another
  // owner can list or get.

  lemma {:induction false} OwnedAfterCreate<M(!new)>(rows: seq<Conversation<M>>, c: Conversation<M>, other: nat)
    ensures Owned(rows + [c], other) == Owned(rows, other) + (if c.owner == other then [c] else [])
  {
    if rows == [] {
      assert Owned([c], other) == (if c.owner == other then [c] else []) by {
        assert [c][1..] == [];
      }
    } else {
      assert (rows + [c])[1..] == rows[1..] + [c];
      OwnedAfterCreate(rows[1..], c, other);
    }
  }

  lemma {:induction false} OwnedAfterRewrite<M(!new)>(rows: seq<Conversation<M>>, id: nat, owner: nat,
                                                     title: Option<string>, messages: Option<M>, other: nat)
    requires other != owner
    ensures Owned(Rewrite(rows, id, owner, title, messages), other) == Owned(rows, other)
  {
    if rows != [] {
      var r := Rewrite(rows, id, owner, title, messages);
      assert r[1..] == Rewrite(rows[1..], id, owner, title, messages);
      OwnedAfterRewrite(rows[1..], id, owner, title, messages, other);
    }
  }

  lemma {:induction false} OwnedAfterRemove<M(!new)>(rows: seq<Conversation<M>>, id: nat, owner: nat, other: nat)
    requires other != owner
    ensures Owned(Remove(rows, id, owner), other) == Owned(rows, other)
  {
    if rows != [] {
      OwnedAfterRemove(rows[1..], id, owner, other);
      if !SelectedBy(rows[0], id, owner) {
        assert ([rows[0]] + Remove(rows[1..], id, owner))[1..] == Remove(rows[1..], id, owner);
      }
    }
  }

  /** Another owner's list is the same after an update or a delete by `owner`. */
  lemma HistoryIsolated<M(!new)>(rows: seq<Conversation<M>>, id: nat, owner: nat,
                               title: Option<string>, messages: Option<M>, other: nat)
    requires other != owner
    ensures History(Rewrite(rows, id, owner, title, messages), other) == History(rows, other)
    ensures History(Remove(rows, id, owner), other) == History(rows, other)
  {
    OwnedAfterRewrite(rows, id, owner, title, messages, other);
    OwnedAfterRemove(rows, id, owner, other);
  }

  /** A conversation created by `c.owner` does not show in another owner's list. */
  lemma HistoryIsolatedFromCreate<M(!new)>(rows: seq<Conversation<M>>, c: Conversation<M>, other: nat)
    requires other != c.owner
    ensures History(rows + [c], other) == History(rows, other)
  {
    OwnedAfterCreate(rows, c, other);
    var before := Owned(rows, other);
    assert before + [] == before;
    assert Owned(rows + [c], other) == before;
  }

  /** Another owner's get of any id answers the same after an update by `owner`. */
  lemma {:induction false} GetIsolatedFromRewrite<M(!new)>(rows: seq<Conversation<M>>, id: nat, owner: nat,
                                                          title: Option<string>, messages: Option<M>,
                                                          otherId: nat, other: nat)
    requires other != owner
    ensures Get(Rewrite(rows, id, owner, title, messages), otherId, other) == Get(rows, otherId, other)
  {
    if rows != [] {
      var r := Rewrite(rows, id, owner, title, messages);
      assert r[1..] == Rewrite(rows[1..], id, owner, title, messages);
      GetIsolatedFromRewrite(rows[1..], id, owner, title, messages, otherId, other);
    }
  }

  /** Another owner's get of any id answers the same after a delete by `owner`. */
  lemma {:induction false} GetIsolatedFromRemove<M(!new)>(rows: seq<Conversation<M>>, id: nat, owner: nat,
                                                         otherId: nat, other: nat)
    requires other != owner
    ensures Get(Remove(rows, id, owner), otherId, other) == Get(rows, otherId, other)
  {
    if rows != [] {
      GetIsolatedFromRemove(rows[1..], id, owner, otherId, other);
      if !SelectedBy(rows[0], id, owner) {
        assert ([rows[0]] + Remove(rows[1..], id, owner))[1..] == Remove(rows[1..], id, owner);
      }
    }
  }

  /** Another owner's get of any id answers the same after a create by `c.owner`. */
  lemma {:induction false} GetIsolatedFromCreate<M(!new)>(rows: seq<Conversation<M>>, c: Conversation<M>,
                                                         otherId: nat, other: nat)
    requires other != c.owner
    ensures Get(rows + [c], otherId, other) == Get(rows, otherId, other)
  {
    if rows == [] {
      assert [c][1..] == [];
    } else {
      assert (rows + [c])[1..] == rows[1..] + [c];
      GetIsolatedFromCreate(rows[1..], c, otherId, other);
    }
  }

  /** After a create, getting the fresh id as its owner returns the new row. */
  lemma GetAfterCreate<M(!new)>(rows: seq<Conversation<M>>, nextId: nat, c: Conversation<M>)
    requires TableValid(rows, nextId)
    requires c.id == nextId
    ensures Get(rows + [c], c.id, c.owner) == Ok(c)
  {
    CreateKeepsValid(rows, nextId, c);
    GetFindsOwnedRow(rows + [c], c);
  }

  /** After a delete, get of the same id by the same owner finds nothing. */
  lemma GetAfterRemove<M(!new)>(rows: seq<Conversation<M>>, id: nat, owner: nat)
    ensures Get(Remove(rows, id, owner), id, owner) == Err(NotFound)
  {
  }

  // ---------------------------------------------------------------------
  // The table and its three writing handlers.

  class ChatHistory<M(==,!new)> {
    var rows: seq<Conversation<M>>
    var nextId: nat

    ghost predicate Valid()
      reads this
    {
      TableValid(rows, nextId)
    }

    /** An empty table whose auto-increment starts at 1. */
    constructor ()
      ensures Valid() && rows == [] && nextId == 1
    {
      rows, nextId := [], 1;
    }

    /** POST /history for `owner` at time `now`. */
    method Create(owner: nat, title: Option<string>, messages: Option<M>, now: int) returns (reply: Result<Created<M>>)
      requires Valid()
      modifies this
      ensures Valid()
      ensures reply.Err? <==> MissingField(title, messages)
      ensures reply.Err? ==> reply.failure == TitleAndMessagesRequired && rows == old(rows) && nextId == old(nextId)
      ensures reply.Ok? ==>
        && rows == old(rows) + [Conversation(old(nextId), owner, title, messages, now, now)]
        && nextId == old(nextId) + 1
        && reply.value == Created(old(nextId), title.value, messages.value, now, now)
    {
      if MissingField(title, messages) {
        return Err(TitleAndMessagesRequired);
      }
      var id := nextId;
      var row := Conversation(id, owner, title, messages, now, now);
      CreateKeepsValid(rows, nextId, row);
      rows := rows + [row];
      nextId := nextId + 1;
      return Ok(Created(id, title.value, messages.value, now, now));
    }

    /** PUT /history/:id for `owner`. */
    method Update(owner: nat, id: nat, title: Option<string>, messages: Option<M>) returns (reply: Result<string>)
      requires Valid()
      modifies this
      ensures Valid() && nextId == old(nextId)
      ensures reply.Err? <==> forall c :: c in old(rows) ==> !SelectedBy(c, id, owner)
      ensures reply.Err? ==> reply.failure == NotFound && rows == old(rows)
      ensures reply.Ok? ==> reply.value == ConversationUpdated && rows == Rewrite(old(rows), id, owner, title, messages)
    {
      var affected := CountMatching(rows, id, owner);
      RewriteKeepsValid(rows, nextId, id, owner, title, messages);
      if affected == 0 {
        RewriteWithoutMatch(rows, id, owner, title, messages);
      }
      rows := Rewrite(rows, id, owner, title, messages);
      if affected == 0 {
        return Err(NotFound);
      }
      return Ok(ConversationUpdated);
    }

    /** DELETE /history/:id for `owner`. */
    method Delete(owner: nat, id: nat) returns (reply: Result<string>)
      requires Valid()
      modifies this
      ensures Valid() && nextId == old(nextId)
      ensures reply.Err? <==> forall c :: c in old(rows) ==> !SelectedBy(c, id, owner)
      ensures reply.Err? ==> reply.failure == NotFound && rows == old(rows)
      ensures reply.Ok? ==> reply.value == ConversationDeleted && rows == Remove(old(rows), id, owner)
      ensures reply.Ok? ==> |rows| == |old(rows)| - 1
    {
      var affected := CountMatching(rows, id, owner);
      AtMostOneMatch(rows, id, owner);
      RemoveKeepsValid(rows, nextId, id, owner);
      if affected == 0 {
        RemoveWithoutMatch(rows, id, owner);
      }
      rows := Remove(rows, id, owner);
      if affected == 0 {
        return Err(NotFound);
      }
      return Ok(ConversationDeleted);
    }
  }
}
