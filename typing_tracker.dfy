/** The "who is typing" registry (server/services/typingTracker.js): a
    process-wide `Map` from `userName-userColonia` to the user and the time
    of their last keystroke signal. `Date.now()` is the `now` parameter. */
module TypingTracker {
  import opened Common
  import opened OrderedMap

  /** Milliseconds after which a user no longer counts as typing. */
  const TypingTimeout: int := 5000

  datatype TypingEntry = TypingEntry(userName: string, userColonia: string, timestamp: int)
  datatype TypingUser = TypingUser(userName: string, userColonia: string)

  function TypingKey(userName: string, userColonia: string): string
  {
    userName + "-" + userColonia
  }

  /** The key does not separate names from colonias: two different users can
      share a key, and then the later signal replaces the earlier user. */
  lemma TypingKeyCollision()
    ensures TypingKey("a-b", "c") == TypingKey("a", "b-c")
    ensures TypingUser("a-b", "c") != TypingUser("a", "b-c")
  {
  }

  predicate StillTyping(e: (string, TypingEntry), now: int)
  {
    now - e.1.timestamp <= TypingTimeout
  }

  function StillTypingAt(now: int): ((string, TypingEntry)) -> bool
  {
    (e: (string, TypingEntry)) => StillTyping(e, now)
  }

  /** The entries `getTypingUsers` keeps at time `now`, in insertion order. */
  function Fresh(m: seq<(string, TypingEntry)>, now: int): (r: seq<(string, TypingEntry)>)
    ensures KeysDistinct(m) ==> KeysDistinct(r)
  {
    FilterKeysDistinct(m, StillTypingAt(now));
    Filter(m, StillTypingAt(now))
  }

  function UsersOf(m: seq<(string, TypingEntry)>): (r: seq<TypingUser>)
    ensures |r| == |m|
    ensures forall i :: 0 <= i < |m| ==> r[i] == TypingUser(m[i].1.userName, m[i].1.userColonia)
  {
    seq(|m|, i requires 0 <= i < |m| => TypingUser(m[i].1.userName, m[i].1.userColonia))
  }

  /** After a sweep at `now` every entry left is fresh, and a second sweep at
      the same instant changes nothing. */
  lemma FreshIdempotent(m: seq<(string, TypingEntry)>, now: int)
    ensures forall i :: 0 <= i < |Fresh(m, now)| ==> now - Fresh(m, now)[i].1.timestamp <= TypingTimeout
    ensures Fresh(Fresh(m, now), now) == Fresh(m, now)
  {
    FilterAll(Fresh(m, now), StillTypingAt(now));
  }

  /** A sweep keeps a key's entry exactly when it is at most 5000 ms old. */
  lemma FreshGet(m: seq<(string, TypingEntry)>, now: int, key: string)
    requires KeysDistinct(m)
    ensures KeysDistinct(Fresh(m, now))
    ensures Get(Fresh(m, now), key) ==
      if Get(m, key).Some? && now - Get(m, key).value.timestamp <= TypingTimeout then Get(m, key) else None
  {
    FilterGet(m, StillTypingAt(now), key);
  }

  /** A user who signalled at `t` is listed by a sweep at `now` exactly when
      `now - t <= 5000`, until someone else writes the same key. */
  lemma SetThenSweep(m: seq<(string, TypingEntry)>, userName: string, userColonia: string, t: int, now: int)
    requires KeysDistinct(m)
    ensures var key := TypingKey(userName, userColonia);
      Get(Fresh(Set(m, key, TypingEntry(userName, userColonia, t)), now), key) ==
        if now - t <= TypingTimeout then Some(TypingEntry(userName, userColonia, t)) else None
  {
    var key := TypingKey(userName, userColonia);
    FreshGet(Set(m, key, TypingEntry(userName, userColonia, t)), now, key);
  }

  lemma UsersOfSnoc(m: seq<(string, TypingEntry)>, e: (string, TypingEntry))
    ensures UsersOf(m + [e]) == UsersOf(m) + [TypingUser(e.1.userName, e.1.userColonia)]
  {
  }

  /** Extending the visited prefix by one entry extends the kept entries by it exactly when it is fresh. */
  lemma FreshSnoc(m: seq<(string, TypingEntry)>, x: (string, TypingEntry), now: int)
    ensures Fresh(m + [x], now) == Fresh(m, now) + if StillTyping(x, now) then [x] else []
  {
    FilterConcat(m, [x], StillTypingAt(now));
  }

  /** A sweep step over a fresh entry keeps it in place and lists its user. */
  lemma SweepKeep(snapshot: seq<(string, TypingEntry)>, i: nat, now: int)
    requires i < |snapshot| && StillTyping(snapshot[i], now)
    ensures var done := Fresh(snapshot[..i], now); var next := Fresh(snapshot[..i + 1], now);
      && next + snapshot[i + 1..] == done + snapshot[i..]
      && UsersOf(next) == UsersOf(done) + [TypingUser(snapshot[i].1.userName, snapshot[i].1.userColonia)]
  {
    var x := snapshot[i];
    var done := Fresh(snapshot[..i], now);
    assert snapshot[..i + 1] == snapshot[..i] + [x];
    FreshSnoc(snapshot[..i], x, now);
    assert snapshot[i..] == [x] + snapshot[i + 1..];
    UsersOfSnoc(done, x);
  }

  /** A sweep step over a stale entry deletes its key and lists nobody. */
  lemma SweepDrop(snapshot: seq<(string, TypingEntry)>, i: nat, now: int)
    requires i < |snapshot| && !StillTyping(snapshot[i], now)
    requires KeysDistinct(Fresh(snapshot[..i], now) + snapshot[i..])
    ensures var done := Fresh(snapshot[..i], now); var next := Fresh(snapshot[..i + 1], now);
      && next + snapshot[i + 1..] == Delete(done + snapshot[i..], snapshot[i].0)
      && next == done
  {
    var x := snapshot[i];
    var done := Fresh(snapshot[..i], now);
    assert snapshot[..i + 1] == snapshot[..i] + [x];
    FreshSnoc(snapshot[..i], x, now);
    var rest := snapshot[i..];
    assert rest[0] == x && rest[1..] == snapshot[i + 1..];
    DeleteFront(done, rest);
  }

  class Registry {
    var typing: seq<(string, TypingEntry)>

    ghost predicate Valid()
      reads this
    {
      KeysDistinct(typing)
    }

    constructor ()
      ensures Valid() && typing == []
    {
      typing := [];
    }

    /** `setUserTyping`: records the user under their key with time `now`. */
    method SetUserTyping(userName: string, userColonia: string, now: int)
      requires Valid()
      modifies this
      ensures Valid()
      ensures typing == Set(old(typing), TypingKey(userName, userColonia), TypingEntry(userName, userColonia, now))
    {
      typing := Set(typing, TypingKey(userName, userColonia), TypingEntry(userName, userColonia, now));
    }

    /** `removeUserTyping`. */
    method RemoveUserTyping(userName: string, userColonia: string)
      requires Valid()
      modifies this
      ensures Valid()
      ensures typing == Delete(old(typing), TypingKey(userName, userColonia))
    {
      typing := Delete(typing, TypingKey(userName, userColonia));
    }

    /** `getTypingUsers`: walks the map in insertion order, deleting every
        entry older than 5000 ms and listing the others. The periodic timer
        makes the same call and discards the list. */
    method GetTypingUsers(now: int) returns (active: seq<TypingUser>)
      requires Valid()
      modifies this
      ensures Valid()
      ensures typing == Fresh(old(typing), now)
      ensures active == UsersOf(typing)
    {
      var snapshot := typing;
      active := [];
      var i := 0;
      while i < |snapshot|
        invariant 0 <= i <= |snapshot|
        invariant typing == Fresh(snapshot[..i], now) + snapshot[i..]
        invariant KeysDistinct(typing)
        invariant active == UsersOf(Fresh(snapshot[..i], now))
      {
        var (key, data) := snapshot[i];
        if now - data.timestamp > TypingTimeout {
          SweepDrop(snapshot, i, now);
          typing := Delete(typing, key);
        } else {
          SweepKeep(snapshot, i, now);
          active := active + [TypingUser(data.userName, data.userColonia)];
        }
        i := i + 1;
      }
      assert snapshot[..i] == snapshot;
    }
  }
}
