/** The `message_reactions` table (server/models/Reaction.js). The table has a
    unique key on (message, user), which `ON DUPLICATE KEY UPDATE` relies on;
    the class invariant states it. */
module ReactionStore {
  import opened Common

  datatype Reaction = Reaction(messageId: nat, userName: string, userColonia: string, emoji: string, createdAt: int)

  /** One row of `getByMessage`: an emoji, how many users chose it, and their
      names in `created_at` order (the `GROUP_CONCAT`). */
  datatype EmojiGroup = EmojiGroup(emoji: string, count: nat, users: seq<string>)

  /** One row of `getByMessages`: a group tagged with its message. */
  datatype TaggedGroup = TaggedGroup(messageId: nat, group: EmojiGroup)

  function ReactedAt(r: Reaction): int { r.createdAt }
  function GroupCount(g: EmojiGroup): int { g.count }
  function GroupEmoji(g: EmojiGroup): string { g.emoji }
  /** Sort key for `ORDER BY count DESC`. */
  function DescendingCount(g: EmojiGroup): int { 0 - g.count as int }

  predicate SameKey(r: Reaction, messageId: nat, userName: string)
  {
    r.messageId == messageId && r.userName == userName
  }

  /** At most one row per (message, user). */
  predicate KeysUnique(rs: seq<Reaction>)
  {
    forall i, j :: 0 <= i < j < |rs| ==> !SameKey(rs[j], rs[i].messageId, rs[i].userName)
  }

  /** Position of the row for (message, user), if any. */
  function FindKey(rs: seq<Reaction>, messageId: nat, userName: string): (k: Option<nat>)
    ensures k.Some? ==> k.value < |rs| && SameKey(rs[k.value], messageId, userName)
    ensures k.None? <==> forall i :: 0 <= i < |rs| ==> !SameKey(rs[i], messageId, userName)
  {
    if rs == [] then None
    else if SameKey(rs[0], messageId, userName) then Some(0)
    else match FindKey(rs[1..], messageId, userName)
      case None => None
      case Some(k) => Some(k + 1)
  }

  // ---------------------------------------------------------------------------
  // addOrUpdate and remove

  /** `INSERT ... ON DUPLICATE KEY UPDATE emoji = VALUES(emoji), created_at = CURRENT_TIMESTAMP`. */
  function Upsert(rs: seq<Reaction>, messageId: nat, userName: string, userColonia: string, emoji: string, now: int): seq<Reaction>
  {
    match FindKey(rs, messageId, userName)
    case None => rs + [Reaction(messageId, userName, userColonia, emoji, now)]
    case Some(k) => rs[k := rs[k].(emoji := emoji, createdAt := now)]
  }

  /** After an upsert the key is still unique, its one row carries the new
      emoji and time, an existing row keeps its stored `user_colonia`, and
      every row of another key is unchanged and in place. */
  lemma UpsertSpec(rs: seq<Reaction>, messageId: nat, userName: string, userColonia: string, emoji: string, now: int)
    requires KeysUnique(rs)
    ensures var r := Upsert(rs, messageId, userName, userColonia, emoji, now);
      && KeysUnique(r)
      && FindKey(r, messageId, userName).Some?
      && var k := FindKey(r, messageId, userName).value;
      && r[k].emoji == emoji && r[k].createdAt == now
      && r[k].userColonia == (if FindKey(rs, messageId, userName).Some? then rs[k].userColonia else userColonia)
      && (forall i :: 0 <= i < |rs| && !SameKey(rs[i], messageId, userName) ==> r[i] == rs[i])
      && (forall i :: 0 <= i < |r| && !SameKey(r[i], messageId, userName) ==> r[i] in rs)
  {
    var r := Upsert(rs, messageId, userName, userColonia, emoji, now);
    match FindKey(rs, messageId, userName)
    case None =>
      assert FindKey(r, messageId, userName) == Some(|rs|) by {
        FindKeyAt(r, messageId, userName, |rs|);
      }
    case Some(k) =>
      assert KeysUnique(r) by {
        forall i, j | 0 <= i < j < |r| ensures !SameKey(r[j], r[i].messageId, r[i].userName) {
          assert SameKey(r[i], rs[i].messageId, rs[i].userName);
        }
      }
      FindKeyAt(r, messageId, userName, k);
  }

  /** In a table with unique keys the row found for a key is the one stored under it. */
  lemma FindKeyAt(rs: seq<Reaction>, messageId: nat, userName: string, k: nat)
    requires k < |rs| && SameKey(rs[k], messageId, userName)
    requires forall i :: 0 <= i < k ==> !SameKey(rs[i], messageId, userName)
    ensures FindKey(rs, messageId, userName) == Some(k)
  {
    var f := FindKey(rs, messageId, userName);
    if f.Some? && f.value > k {
      FindKeyFirst(rs, messageId, userName);
    }
  }

  lemma {:induction false} FindKeyFirst(rs: seq<Reaction>, messageId: nat, userName: string)
    requires FindKey(rs, messageId, userName).Some?
    ensures forall i :: 0 <= i < FindKey(rs, messageId, userName).value ==> !SameKey(rs[i], messageId, userName)
  {
    if !SameKey(rs[0], messageId, userName) {
      FindKeyFirst(rs[1..], messageId, userName);
    }
  }

  /** Upserting the same reaction twice leaves one row, as upserting it once does. */
  lemma UpsertTwiceOneRow(rs: seq<Reaction>, messageId: nat, userName: string, userColonia: string, emoji: string, now: int)
    requires KeysUnique(rs)
    ensures var once := Upsert(rs, messageId, userName, userColonia, emoji, now);
      |Upsert(once, messageId, userName, userColonia, emoji, now)| == |once|
  {
    UpsertSpec(rs, messageId, userName, userColonia, emoji, now);
  }

  /** `DELETE FROM message_reactions WHERE message_id = ? AND user_name = ?`. */
  function Removed(rs: seq<Reaction>, messageId: nat, userName: string): (r: seq<Reaction>)
    ensures forall i :: 0 <= i < |r| ==> r[i] in rs && !SameKey(r[i], messageId, userName)
    ensures forall i :: 0 <= i < |rs| && !SameKey(rs[i], messageId, userName) ==> rs[i] in r
  {
    Filter(rs, (x: Reaction) => !SameKey(x, messageId, userName))
  }

  /** `remove`'s `affectedRows`: one when the key had a row, zero otherwise. */
  lemma {:induction false} RemovedCount(rs: seq<Reaction>, messageId: nat, userName: string)
    requires KeysUnique(rs)
    ensures |rs| - |Removed(rs, messageId, userName)| == if FindKey(rs, messageId, userName).Some? then 1 else 0
  {
    if rs != [] {
      var tail := rs[1..];
      assert KeysUnique(tail);
      RemovedCount(tail, messageId, userName);
      if SameKey(rs[0], messageId, userName) {
        assert FindKey(tail, messageId, userName).None? by {
          forall i | 0 <= i < |tail| ensures !SameKey(tail[i], messageId, userName) {
            assert tail[i] == rs[i + 1];
          }
        }
      } else {
        assert Removed(rs, messageId, userName) == [rs[0]] + Removed(tail, messageId, userName);
      }
    }
  }

  /** Deleting a key keeps the other keys unique. */
  lemma {:induction false} RemovedKeysUnique(rs: seq<Reaction>, messageId: nat, userName: string)
    requires KeysUnique(rs)
    ensures KeysUnique(Removed(rs, messageId, userName))
  {
    if rs != [] {
      var tail := rs[1..];
      assert KeysUnique(tail);
      RemovedKeysUnique(tail, messageId, userName);
      if !SameKey(rs[0], messageId, userName) {
        var rest := Removed(tail, messageId, userName);
        assert Removed(rs, messageId, userName) == [rs[0]] + rest;
        forall y | y in tail ensures !SameKey(y, rs[0].messageId, rs[0].userName) {
          var m :| 0 <= m < |tail| && tail[m] == y;
          assert rs[m + 1] == y;
        }
        KeysUniqueCons(rs[0], rest);
      }
    }
  }

  /** A row whose key no later row has keeps the keys unique. */
  lemma KeysUniqueCons(x: Reaction, t: seq<Reaction>)
    requires KeysUnique(t)
    requires forall j :: 0 <= j < |t| ==> !SameKey(t[j], x.messageId, x.userName)
    ensures KeysUnique([x] + t)
  {
    var s := [x] + t;
    forall i, j | 0 <= i < j < |s| ensures !SameKey(s[j], s[i].messageId, s[i].userName) {
      assert s[j] == t[j - 1];
      if i > 0 {
        assert s[i] == t[i - 1];
      }
    }
  }

  // ---------------------------------------------------------------------------
  // grouped reads

  function ForMessage(rs: seq<Reaction>, messageId: nat): seq<Reaction>
  {
    Filter(rs, (r: Reaction) => r.messageId == messageId)
  }

  function WithEmoji(rs: seq<Reaction>, e: string): seq<Reaction>
  {
    Filter(rs, (r: Reaction) => r.emoji == e)
  }

  function WithoutEmoji(rs: seq<Reaction>, e: string): seq<Reaction>
  {
    Filter(rs, (r: Reaction) => r.emoji != e)
  }

  function UserNames(rs: seq<Reaction>): (names: seq<string>)
    ensures |names| == |rs|
    ensures forall i :: 0 <= i < |rs| ==> names[i] == rs[i].userName
  {
    seq(|rs|, i requires 0 <= i < |rs| => rs[i].userName)
  }

  /** The aggregate row for one emoji among `rs`. */
  function GroupFor(rs: seq<Reaction>, e: string): EmojiGroup
  {
    var same := WithEmoji(rs, e);
    EmojiGroup(e, |same|, UserNames(SortBy(same, ReactedAt)))
  }

  /** `GROUP BY emoji`, groups in order of first appearance. */
  function Groups(rs: seq<Reaction>): seq<EmojiGroup>
    decreases |rs|
  {
    if rs == [] then []
    else
      var e := rs[0].emoji;
      [GroupFor(rs, e)] + Groups(WithoutEmoji(rs, e))
  }

  lemma {:induction false} EmojiSplit(rs: seq<Reaction>, e: string)
    ensures |WithEmoji(rs, e)| + |WithoutEmoji(rs, e)| == |rs|
  {
    if rs != [] {
      EmojiSplit(rs[1..], e);
    }
  }

  lemma {:induction false} WithEmojiAfterWithout(rs: seq<Reaction>, e: string, e': string)
    requires e != e'
    ensures WithEmoji(WithoutEmoji(rs, e), e') == WithEmoji(rs, e')
  {
    if rs != [] {
      WithEmojiAfterWithout(rs[1..], e, e');
    }
  }

  /** A group among the groups of `rs` for an emoji other than the first. */
  lemma TailGroup(rs: seq<Reaction>, e: string, g: EmojiGroup)
    requires g == GroupFor(WithoutEmoji(rs, e), g.emoji) && g.count >= 1
    ensures g.emoji != e && g == GroupFor(rs, g.emoji)
  {
    var w := WithEmoji(WithoutEmoji(rs, e), g.emoji);
    assert w[0] in WithoutEmoji(rs, e);
    WithEmojiAfterWithout(rs, e, g.emoji);
  }

  /** Each group is the aggregate of its own emoji and has at least one row. */
  lemma {:induction false} GroupsAreAggregates(rs: seq<Reaction>)
    ensures forall g :: g in Groups(rs) ==> g == GroupFor(rs, g.emoji) && g.count >= 1
    decreases |rs|
  {
    if rs != [] {
      var e := rs[0].emoji;
      var rest := WithoutEmoji(rs, e);
      EmojiSplit(rs, e);
      GroupsAreAggregates(rest);
      assert rs[0] in WithEmoji(rs, e);
      forall g | g in Groups(rest) ensures g == GroupFor(rs, g.emoji) && g.count >= 1 {
        TailGroup(rs, e, g);
      }
      assert Groups(rs) == [GroupFor(rs, e)] + Groups(rest);
    }
  }

  lemma DistinctCons(g0: EmojiGroup, tail: seq<EmojiGroup>)
    requires DistinctBy(tail, GroupEmoji)
    requires forall k :: 0 <= k < |tail| ==> tail[k].emoji != g0.emoji
    ensures DistinctBy([g0] + tail, GroupEmoji)
  {
    var gs := [g0] + tail;
    forall i, j | 0 <= i < j < |gs| ensures GroupEmoji(gs[i]) != GroupEmoji(gs[j]) {
      assert gs[j] == tail[j - 1];
      if i > 0 {
        assert gs[i] == tail[i - 1];
      }
    }
  }

  /** No emoji has two groups. */
  lemma {:induction false} GroupsDistinct(rs: seq<Reaction>)
    ensures DistinctBy(Groups(rs), GroupEmoji)
    decreases |rs|
  {
    if rs != [] {
      var e := rs[0].emoji;
      var rest := WithoutEmoji(rs, e);
      var tail := Groups(rest);
      EmojiSplit(rs, e);
      GroupsDistinct(rest);
      GroupsAreAggregates(rest);
      forall k | 0 <= k < |tail| ensures tail[k].emoji != e {
        TailGroup(rs, e, tail[k]);
      }
      DistinctCons(GroupFor(rs, e), tail);
    }
  }

  /** Every emoji present among the rows has a group. */
  lemma {:induction false} GroupsCover(rs: seq<Reaction>)
    ensures forall i :: 0 <= i < |rs| ==> GroupFor(rs, rs[i].emoji) in Groups(rs)
    decreases |rs|
  {
    if rs != [] {
      var e := rs[0].emoji;
      var rest := WithoutEmoji(rs, e);
      EmojiSplit(rs, e);
      GroupsCover(rest);
      assert Groups(rs) == [GroupFor(rs, e)] + Groups(rest);
      forall i | 0 <= i < |rs| && rs[i].emoji != e ensures GroupFor(rs, rs[i].emoji) in Groups(rs) {
        assert rs[i] in rest;
        var j :| 0 <= j < |rest| && rest[j] == rs[i];
        assert GroupFor(rest, rest[j].emoji) in Groups(rest);
        WithEmojiAfterWithout(rs, e, rs[i].emoji);
      }
    }
  }

  /** The counts add up to the number of rows. */
  lemma {:induction false} GroupsSum(rs: seq<Reaction>)
    ensures SumBy(Groups(rs), GroupCount) == |rs|
    decreases |rs|
  {
    if rs != [] {
      var e := rs[0].emoji;
      var rest := WithoutEmoji(rs, e);
      var g0 := GroupFor(rs, e);
      EmojiSplit(rs, e);
      GroupsSum(rest);
      assert Groups(rs) == [g0] + Groups(rest);
      assert ([g0] + Groups(rest))[1..] == Groups(rest);
    }
  }

  /** The groups of `rs`: each is the aggregate of its emoji, emojis are
      pairwise distinct, every emoji present has a group, and the counts add
      up to the number of rows. */
  lemma GroupsSpec(rs: seq<Reaction>)
    ensures SumBy(Groups(rs), GroupCount) == |rs|
    ensures DistinctBy(Groups(rs), GroupEmoji)
    ensures forall g :: g in Groups(rs) ==> g == GroupFor(rs, g.emoji) && g.count >= 1
    ensures forall i :: 0 <= i < |rs| ==> GroupFor(rs, rs[i].emoji) in Groups(rs)
  {
    GroupsSum(rs);
    GroupsDistinct(rs);
    GroupsAreAggregates(rs);
    GroupsCover(rs);
  }

  /** `getByMessage(messageId)`: the groups of that message's reactions,
      ordered by count, largest first. */
  function GetByMessage(rs: seq<Reaction>, messageId: nat): seq<EmojiGroup>
  {
    SortBy(Groups(ForMessage(rs, messageId)), DescendingCount)
  }

  /** One group per distinct emoji on the message, with exactly its row count
      and its users in `created_at` order; counts in descending order; the
      counts sum to the message's number of reactions. */
  lemma GetByMessageSpec(rs: seq<Reaction>, messageId: nat)
    ensures var gs := GetByMessage(rs, messageId); var mine := ForMessage(rs, messageId);
      && SortedBy(gs, DescendingCount)
      && DistinctBy(gs, GroupEmoji)
      && (forall g :: g in gs ==> g == GroupFor(mine, g.emoji) && g.count >= 1)
      && (forall i :: 0 <= i < |mine| ==> GroupFor(mine, mine[i].emoji) in gs)
      && SumBy(gs, GroupCount) == |mine|
  {
    var mine := ForMessage(rs, messageId);
    GroupsSpec(mine);
    SumBySorted(Groups(mine), DescendingCount, GroupCount);
    DistinctBySorted(Groups(mine), DescendingCount, GroupEmoji);
    forall g ensures g in GetByMessage(rs, messageId) <==> g in Groups(mine) {
      SortByMembers(Groups(mine), DescendingCount, g);
    }
  }

  function NatKey(x: nat): int { x }

  /** Drops adjacent repeats. */
  function Dedup(s: seq<nat>): (r: seq<nat>)
    ensures forall x :: x in r <==> x in s
    ensures SortedBy(s, NatKey) ==> forall i, j :: 0 <= i < j < |r| ==> r[i] < r[j]
  {
    if |s| <= 1 then s
    else if s[0] == s[1] then Dedup(s[1..])
    else
      var t := Dedup(s[1..]);
      assert SortedBy(s, NatKey) ==> SortedBy(s[1..], NatKey);
      assert SortedBy(s, NatKey) ==> forall k :: 0 <= k < |t| ==> s[0] < t[k] by {
        if SortedBy(s, NatKey) {
          forall k | 0 <= k < |t| ensures s[0] < t[k] {
            assert t[k] in s[1..];
            var j :| 0 <= j < |s[1..]| && s[1..][j] == t[k];
            assert NatKey(s[0]) <= NatKey(s[1]) <= NatKey(s[j + 1]);
          }
        }
      }
      [s[0]] + t
  }

  function Tagged(messageId: nat, gs: seq<EmojiGroup>): (r: seq<TaggedGroup>)
    ensures forall t :: t in r <==> t.messageId == messageId && t.group in gs
    ensures |r| == |gs| && forall k :: 0 <= k < |gs| ==> r[k] == TaggedGroup(messageId, gs[k])
  {
    if gs == [] then [] else [TaggedGroup(messageId, gs[0])] + Tagged(messageId, gs[1..])
  }

  function Flatten(ids: seq<nat>, rs: seq<Reaction>): seq<TaggedGroup>
  {
    if ids == [] then []
    else Tagged(ids[0], GetByMessage(rs, ids[0])) + Flatten(ids[1..], rs)
  }

  /** `getByMessages(ids)`: `[]` for an empty list; otherwise, for each listed
      message in ascending id order, that message's groups. */
  function GetByMessages(rs: seq<Reaction>, ids: seq<nat>): (r: seq<TaggedGroup>)
    ensures ids == [] ==> r == []
  {
    if ids == [] then [] else Flatten(Dedup(SortBy(ids, NatKey)), rs)
  }

  lemma {:induction false} FlattenSpec(ids: seq<nat>, rs: seq<Reaction>)
    ensures forall t :: t in Flatten(ids, rs) <==> t.messageId in ids && t.group in GetByMessage(rs, t.messageId)
  {
    if ids != [] {
      FlattenSpec(ids[1..], rs);
      assert forall x :: x in ids <==> x == ids[0] || x in ids[1..];
    }
  }

  /** The tagged groups are exactly the groups of the listed messages. */
  lemma GetByMessagesSpec(rs: seq<Reaction>, ids: seq<nat>)
    ensures forall t :: t in GetByMessages(rs, ids) <==> t.messageId in ids && t.group in GetByMessage(rs, t.messageId)
  {
    if ids != [] {
      var sorted := SortBy(ids, NatKey);
      forall x ensures x in Dedup(sorted) <==> x in ids { SortByMembers(ids, NatKey, x); }
      FlattenSpec(Dedup(sorted), rs);
    }
  }

  /** `ORDER BY message_id, count DESC` over `GROUP BY message_id, emoji`:
      message ids never decrease, counts never increase within a message,
      and no (message, emoji) pair has two rows. */
  predicate OrderedTagged(ts: seq<TaggedGroup>)
  {
    forall i, j :: 0 <= i < j < |ts| ==>
      && ts[i].messageId <= ts[j].messageId
      && (ts[i].messageId == ts[j].messageId ==>
            ts[i].group.count >= ts[j].group.count && ts[i].group.emoji != ts[j].group.emoji)
  }

  /** One message's groups, tagged, are in the query's order. */
  lemma TaggedOrdered(m: nat, gs: seq<EmojiGroup>)
    requires SortedBy(gs, DescendingCount) && DistinctBy(gs, GroupEmoji)
    ensures OrderedTagged(Tagged(m, gs))
  {
    var ts := Tagged(m, gs);
    forall i, j | 0 <= i < j < |ts|
      ensures ts[i].group.count >= ts[j].group.count && ts[i].group.emoji != ts[j].group.emoji
    {
      assert DescendingCount(gs[i]) <= DescendingCount(gs[j]);
      assert GroupEmoji(gs[i]) != GroupEmoji(gs[j]);
    }
  }

  /** A block of one message followed by blocks of larger messages. */
  lemma OrderedAppend(m: nat, head: seq<TaggedGroup>, rest: seq<TaggedGroup>)
    requires OrderedTagged(head) && OrderedTagged(rest)
    requires forall k :: 0 <= k < |head| ==> head[k].messageId == m
    requires forall k :: 0 <= k < |rest| ==> m < rest[k].messageId
    ensures OrderedTagged(head + rest)
  {
    var ts := head + rest;
    forall i, j | 0 <= i < j < |ts|
      ensures && ts[i].messageId <= ts[j].messageId
              && (ts[i].messageId == ts[j].messageId ==>
                    ts[i].group.count >= ts[j].group.count && ts[i].group.emoji != ts[j].group.emoji)
    {
      if j < |head| {
        assert ts[i] == head[i] && ts[j] == head[j];
      } else if i < |head| {
        assert ts[i] == head[i] && ts[j] == rest[j - |head|];
      } else {
        assert ts[i] == rest[i - |head|] && ts[j] == rest[j - |head|];
      }
    }
  }

  /** Over strictly increasing ids the blocks come out in the query's order. */
  lemma {:induction false} FlattenOrdered(ids: seq<nat>, rs: seq<Reaction>)
    requires forall i, j :: 0 <= i < j < |ids| ==> ids[i] < ids[j]
    ensures OrderedTagged(Flatten(ids, rs))
  {
    if ids != [] {
      var m := ids[0];
      var gs := GetByMessage(rs, m);
      var rest := Flatten(ids[1..], rs);
      FlattenOrdered(ids[1..], rs);
      FlattenSpec(ids[1..], rs);
      GetByMessageSpec(rs, m);
      TaggedOrdered(m, gs);
      forall k | 0 <= k < |rest| ensures m < rest[k].messageId {
        assert rest[k] in rest;
        var n :| 0 <= n < |ids[1..]| && ids[1..][n] == rest[k].messageId;
        assert ids[0] < ids[n + 1];
      }
      OrderedAppend(m, Tagged(m, gs), rest);
    }
  }

  /** `getByMessages` returns its rows in the query's order, one per
      (message, emoji) pair. */
  lemma GetByMessagesOrdered(rs: seq<Reaction>, ids: seq<nat>)
    ensures OrderedTagged(GetByMessages(rs, ids))
  {
    if ids != [] {
      FlattenOrdered(Dedup(SortBy(ids, NatKey)), rs);
    }
  }

  /** `getUserReaction`: the user's emoji on that message, or `null` (also for a stored `''`). */
  function GetUserReaction(rs: seq<Reaction>, messageId: nat, userName: string): (r: Option<string>)
    ensures r.Some? <==> exists i :: 0 <= i < |rs| && SameKey(rs[i], messageId, userName) && rs[i].emoji != "" && FindKey(rs, messageId, userName) == Some(i)
    ensures r.Some? ==> r.value != ""
    ensures r.Some? ==> FindKey(rs, messageId, userName).Some? && r.value == rs[FindKey(rs, messageId, userName).value].emoji
  {
    match FindKey(rs, messageId, userName)
    case None => None
    case Some(k) => if rs[k].emoji != "" then Some(rs[k].emoji) else None
  }

  // ---------------------------------------------------------------------------
  // the table

  class ReactionTable {
    var rows: seq<Reaction>

    ghost predicate Valid()
      reads this
    {
      KeysUnique(rows)
    }

    constructor ()
      ensures Valid() && rows == []
    {
      rows := [];
    }

    /** `Reaction.addOrUpdate` at time `now`. */
    method AddOrUpdate(messageId: nat, userName: string, userColonia: string, emoji: string, now: int)
      requires Valid()
      modifies this
      ensures Valid()
      ensures rows == Upsert(old(rows), messageId, userName, userColonia, emoji, now)
    {
      UpsertSpec(rows, messageId, userName, userColonia, emoji, now);
      rows := Upsert(rows, messageId, userName, userColonia, emoji, now);
    }

    /** `Reaction.remove`: deletes the (message, user) row and returns the number deleted. */
    method Remove(messageId: nat, userName: string) returns (deleted: nat)
      requires Valid()
      modifies this
      ensures Valid()
      ensures rows == Removed(old(rows), messageId, userName)
      ensures deleted == if FindKey(old(rows), messageId, userName).Some? then 1 else 0
    {
      RemovedCount(rows, messageId, userName);
      RemovedKeysUnique(rows, messageId, userName);
      deleted := |rows| - |Removed(rows, messageId, userName)|;
      rows := Removed(rows, messageId, userName);
    }
  }
}
