/** The presence registry (server/services/activeUsersTracker.js): a
    process-wide `Map` from `userName|userColonia` to the time of the user's
    last heartbeat. `Date.now()` is the `now` parameter. */
module ActiveUsersTracker {
  import opened Common
  import opened OrderedMap

  /** Milliseconds without a heartbeat after which a user is dropped. */
  const ExpirationTime: int := 30000

  datatype ActiveUser = ActiveUser(userName: string, userColonia: string)

  function ActiveKey(userName: string, userColonia: string): (key: string)
    ensures '|' in key
  {
    Join([userName, userColonia], '|')
  }

  /** `const [userName, userColonia] = key.split('|')`: the first two pieces. */
  function ParseKey(key: string): ActiveUser
    requires '|' in key
  {
    var parts := Split(key, '|');
    ActiveUser(parts[0], parts[1])
  }

  /** A key built from a name and a colonia without `|` is parsed back to them. */
  lemma ParseKeyRoundTrip(userName: string, userColonia: string)
    requires '|' !in userName && '|' !in userColonia
    ensures ParseKey(ActiveKey(userName, userColonia)) == ActiveUser(userName, userColonia)
  {
    SplitJoin([userName, userColonia], '|');
  }

  /** A `|` inside the name shifts the pieces: the user is listed under the
      wrong name and colonia. */
  lemma ParseKeyPipeInName()
    ensures ParseKey(ActiveKey("a|b", "c")) == ActiveUser("a", "b")
  {
    var key := ActiveKey("a|b", "c");
    assert key == "a|b|c";
    FirstIndex(key, '|', 1);
    assert key[2..] == "b|c";
    FirstIndex("b|c", '|', 1);
  }

  predicate Expired(e: (string, int), now: int)
  {
    now - e.1 > ExpirationTime
  }

  function ExpiredAt(now: int): ((string, int)) -> bool
  {
    (e: (string, int)) => Expired(e, now)
  }

  function AliveAt(now: int): ((string, int)) -> bool
  {
    (e: (string, int)) => !Expired(e, now)
  }

  /** The entries that survive `cleanInactiveUsers` at `now`, in insertion order. */
  function Alive(m: seq<(string, int)>, now: int): (r: seq<(string, int)>)
    ensures KeysDistinct(m) ==> KeysDistinct(r)
  {
    FilterKeysDistinct(m, AliveAt(now));
    Filter(m, AliveAt(now))
  }

  predicate KeysWellFormed(m: seq<(string, int)>)
  {
    forall i :: 0 <= i < |m| ==> '|' in m[i].0
  }

  function Users(m: seq<(string, int)>): (r: seq<ActiveUser>)
    requires KeysWellFormed(m)
    ensures |r| == |m|
    ensures forall i :: 0 <= i < |m| ==> r[i] == ParseKey(m[i].0)
  {
    seq(|m|, i requires 0 <= i < |m| => ParseKey(m[i].0))
  }

  /** A heartbeat at `t` keeps the user's entry through a clean-up at `now`
      exactly when `now - t <= 30000`. */
  lemma HeartbeatThenClean(m: seq<(string, int)>, userName: string, userColonia: string, t: int, now: int)
    requires KeysDistinct(m)
    ensures var key := ActiveKey(userName, userColonia);
      Get(Alive(Set(m, key, t), now), key) == if now - t <= ExpirationTime then Some(t) else None
  {
    FilterGet(Set(m, ActiveKey(userName, userColonia), t), AliveAt(now), ActiveKey(userName, userColonia));
  }

  /** After a clean-up nobody left is expired, and cleaning again at the same
      instant changes nothing. */
  lemma AliveIdempotent(m: seq<(string, int)>, now: int)
    ensures forall i :: 0 <= i < |Alive(m, now)| ==> now - Alive(m, now)[i].1 <= ExpirationTime
    ensures Alive(Alive(m, now), now) == Alive(m, now)
  {
    FilterAll(Alive(m, now), AliveAt(now));
  }

  function KeyNotIn(ks: seq<string>): ((string, int)) -> bool
  {
    (e: (string, int)) => e.0 !in ks
  }

  /** One deletion of the second loop: removing one more collected key. */
  lemma DeleteNextKey(snapshot: seq<(string, int)>, ks: seq<string>, j: nat)
    requires j < |ks| && KeysDistinct(snapshot)
    ensures KeysDistinct(Filter(snapshot, KeyNotIn(ks[..j])))
    ensures Delete(Filter(snapshot, KeyNotIn(ks[..j])), ks[j]) == Filter(snapshot, KeyNotIn(ks[..j + 1]))
  {
    FilterKeysDistinct(snapshot, KeyNotIn(ks[..j]));
    assert ks[..j + 1] == ks[..j] + [ks[j]];
    FilterFilter(snapshot, KeyNotIn(ks[..j]), KeyIsNot(ks[j]), KeyNotIn(ks[..j + 1]));
  }

  /** The surviving keys are still well formed. */
  lemma AliveWellFormed(m: seq<(string, int)>, now: int)
    requires KeysWellFormed(m)
    ensures KeysWellFormed(Alive(m, now))
  {
    var r := Alive(m, now);
    forall k | 0 <= k < |r| ensures '|' in r[k].0 {
      FilterMember(m, AliveAt(now), r[k]);
    }
  }

  /** Deleting the keys of the expired entries leaves exactly the live ones. */
  lemma DeleteExpiredKeys(snapshot: seq<(string, int)>, now: int)
    requires KeysDistinct(snapshot)
    ensures Filter(snapshot, KeyNotIn(Keys(Filter(snapshot, ExpiredAt(now))))) == Alive(snapshot, now)
  {
    var stale := Filter(snapshot, ExpiredAt(now));
    var ks := Keys(stale);
    forall i | 0 <= i < |snapshot| ensures KeyNotIn(ks)(snapshot[i]) == AliveAt(now)(snapshot[i]) {
      if Expired(snapshot[i], now) {
        assert snapshot[i] in stale;
        var t :| 0 <= t < |stale| && stale[t] == snapshot[i];
        assert ks[t] == snapshot[i].0;
      }
    }
    FilterEq(snapshot, KeyNotIn(ks), AliveAt(now));
  }

  lemma StaleSnoc(m: seq<(string, int)>, x: (string, int), now: int)
    ensures Keys(Filter(m + [x], ExpiredAt(now))) == Keys(Filter(m, ExpiredAt(now))) + if Expired(x, now) then [x.0] else []
  {
    FilterConcat(m, [x], ExpiredAt(now));
  }

  /** The first loop of `cleanInactiveUsers`: the keys of the entries with no
      heartbeat for more than 30000 ms, in insertion order. */
  method InactiveKeys(snapshot: seq<(string, int)>, now: int) returns (inactiveKeys: seq<string>)
    ensures inactiveKeys == Keys(Filter(snapshot, ExpiredAt(now)))
  {
    inactiveKeys := [];
    var i := 0;
    while i < |snapshot|
      invariant 0 <= i <= |snapshot|
      invariant inactiveKeys == Keys(Filter(snapshot[..i], ExpiredAt(now)))
    {
      assert snapshot[..i + 1] == snapshot[..i] + [snapshot[i]];
      StaleSnoc(snapshot[..i], snapshot[i], now);
      if now - snapshot[i].1 > ExpirationTime {
        inactiveKeys := inactiveKeys + [snapshot[i].0];
      }
      i := i + 1;
    }
    assert snapshot[..i] == snapshot;
  }

  class Registry {
    var active: seq<(string, int)>

    ghost predicate Valid()
      reads this
    {
      KeysDistinct(active) && KeysWellFormed(active)
    }

    constructor ()
      ensures Valid() && active == []
    {
      active := [];
    }

    /** `setUserActive`: a heartbeat from the user at time `now`. */
    method SetUserActive(userName: string, userColonia: string, now: int)
      requires Valid()
      modifies this
      ensures Valid()
      ensures active == Set(old(active), ActiveKey(userName, userColonia), now)
    {
      var key := ActiveKey(userName, userColonia);
      var next := Set(active, key, now);
      forall i | 0 <= i < |next| ensures '|' in next[i].0 {
        if i < |active| && active[i].0 != key {
          assert next[i] == active[i];
        }
      }
      active := next;
    }

    /** `removeUserActive`. */
    method RemoveUserActive(userName: string, userColonia: string)
      requires Valid()
      modifies this
      ensures Valid()
      ensures active == Delete(old(active), ActiveKey(userName, userColonia))
    {
      active := Delete(active, ActiveKey(userName, userColonia));
    }

    /** `cleanInactiveUsers`: collects the keys of entries with no heartbeat
        for more than 30000 ms, then deletes them. The periodic timer makes
        the same call. */
    method CleanInactiveUsers(now: int)
      requires Valid()
      modifies this
      ensures Valid()
      ensures active == Alive(old(active), now)
    {
      var snapshot := active;
      var inactiveKeys := InactiveKeys(snapshot, now);
      var j := 0;
      FilterAll(snapshot, KeyNotIn(inactiveKeys[..0]));
      while j < |inactiveKeys|
        invariant 0 <= j <= |inactiveKeys|
        invariant active == Filter(snapshot, KeyNotIn(inactiveKeys[..j]))
        invariant KeysDistinct(active)
      {
        DeleteNextKey(snapshot, inactiveKeys, j);
        active := Delete(active, inactiveKeys[j]);
        j := j + 1;
      }
      assert inactiveKeys[..j] == inactiveKeys;
      DeleteExpiredKeys(snapshot, now);
      AliveWellFormed(snapshot, now);
    }

    /** `getActiveUsers`: cleans up, then lists the users in insertion order. */
    method GetActiveUsers(now: int) returns (users: seq<ActiveUser>)
      requires Valid()
      modifies this
      ensures Valid()
      ensures active == Alive(old(active), now)
      ensures users == Users(active)
    {
      CleanInactiveUsers(now);
      users := [];
      var i := 0;
      while i < |active|
        invariant 0 <= i <= |active|
        invariant users == Users(active[..i])
      {
        users := users + [ParseKey(active[i].0)];
        i := i + 1;
      }
      assert active[..i] == active;
    }

    /** `getActiveUsersCount`: cleans up, then the number of entries left. */
    method GetActiveUsersCount(now: int) returns (count: nat)
      requires Valid()
      modifies this
      ensures Valid()
      ensures active == Alive(old(active), now)
      ensures count == |active|
    {
      CleanInactiveUsers(now);
      count := |active|;
    }
  }
}
