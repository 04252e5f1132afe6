/** The server's process-wide connection registry `sockets` and the route
    handlers and listeners that read and change it. A connection is a
    `Socket` object whose session fields the handlers update in place; the
    registry maps the id `open` gave a socket to that socket. Broadcasts are
    returned as the list of deliveries they make, in the order they are made. */
module Registry {
  import opened Protocol
  import opened Presence

  /** One live connection as the server sees it. */
  class Socket {
    /** The registry id; 0 until `open` assigns one. */
    var id: nat
    /** The session key; "" while none is set. */
    var key: string
    /** The authenticated user; None until `auth!` succeeds. */
    var userId: Option<UserId>

    constructor ()
      ensures id == 0 && key == "" && userId == None
    {
      id, key, userId := 0, "", None;
    }
  }

  /** The fields of a socket as they are at this moment. */
  function ConnOf(s: Socket): Conn
    reads s
  {
    Conn(s.id, s.key, s.userId)
  }

  predicate Increasing(xs: seq<nat>) {
    forall i, j :: 0 <= i < j < |xs| ==> xs[i] < xs[j]
  }

  /** The keys below `n` of an object whose keys are the given non-negative
      integers, in the order JavaScript enumerates integer keys: ascending. */
  function KeysBelow(keys: set<nat>, n: nat): (r: seq<nat>)
    ensures forall k :: k in r <==> k in keys && k < n
    ensures Increasing(r)
  {
    if n == 0 then []
    else
      var below := KeysBelow(keys, n - 1);
      assert forall i :: 0 <= i < |below| ==> below[i] < n - 1 by {
        forall i | 0 <= i < |below| ensures below[i] < n - 1 {
          assert below[i] in below;
        }
      }
      below + (if n - 1 in keys then [n - 1] else [])
  }

  /** The sockets registered under `ids`, read in that order. */
  function Snapshot(m: map<nat, Socket>, ids: seq<nat>): (r: seq<Conn>)
    requires forall k :: k in ids ==> k in m
    reads m.Values
  {
    seq(|ids|, i requires 0 <= i < |ids| reads m.Values => ConnOf(m[ids[i]]))
  }

  /** The enumeration order depends only on which keys below `n` are present. */
  lemma {:induction false} KeysBelowAgree(a: set<nat>, b: set<nat>, n: nat)
    requires forall k :: k < n ==> (k in a <==> k in b)
    ensures KeysBelow(a, n) == KeysBelow(b, n)
  {
    if n > 0 {
      KeysBelowAgree(a, b, n - 1);
    }
  }

  /** Deleting a key deletes it from the enumeration and keeps the order of
      the rest. */
  lemma {:induction false} KeysBelowDelete(keys: set<nat>, k: nat, n: nat)
    ensures KeysBelow(keys - {k}, n) == Exclude(KeysBelow(keys, n), k)
  {
    if n > 0 {
      var prefix := KeysBelow(keys, n - 1);
      var last := if n - 1 in keys then [n - 1] else [];
      var last' := if n - 1 in keys - {k} then [n - 1] else [];
      KeysBelowDelete(keys, k, n - 1);
      assert Exclude(last, k) == last' by {
        if last != [] {
          assert Exclude(last, k) == (if n - 1 == k then [] else [n - 1]) + Exclude([], k);
        }
      }
      ExcludeAppend(prefix, last, k);
      calc {
        KeysBelow(keys - {k}, n);
        KeysBelow(keys - {k}, n - 1) + last';
        Exclude(prefix, k) + Exclude(last, k);
        Exclude(prefix + last, k);
        { assert KeysBelow(keys, n) == prefix + last; }
        Exclude(KeysBelow(keys, n), k);
      }
    }
  }

  lemma {:induction false} ExcludeAppend(xs: seq<nat>, ys: seq<nat>, k: nat)
    ensures Exclude(xs + ys, k) == Exclude(xs, k) + Exclude(ys, k)
  {
    if xs == [] {
      assert xs + ys == ys;
    } else {
      assert (xs + ys)[0] == xs[0];
      assert (xs + ys)[1..] == xs[1..] + ys;
      ExcludeAppend(xs[1..], ys, k);
    }
  }

  lemma SnapshotCons(m: map<nat, Socket>, ids: seq<nat>)
    requires ids != [] && forall k :: k in ids ==> k in m
    ensures Snapshot(m, ids) == [ConnOf(m[ids[0]])] + Snapshot(m, ids[1..])
  {
  }

  /** Reading the registry after an insertion under a new largest key is
      reading it before and appending the new socket. */
  lemma SnapshotExtend(m: map<nat, Socket>, ids: seq<nat>, k: nat, s: Socket)
    requires forall j :: j in ids ==> j in m && j != k
    ensures Snapshot(m[k := s], ids + [k]) == Snapshot(m, ids) + [ConnOf(s)]
  {
    var m' := m[k := s];
    forall i | 0 <= i < |ids| ensures Snapshot(m', ids + [k])[i] == Snapshot(m, ids)[i] {
      assert (ids + [k])[i] == ids[i] && ids[i] in ids;
    }
  }

  /** Reading the registry after a deletion is reading it before and dropping
      the deleted socket's entry. */
  lemma {:induction false} SnapshotDelete(m: map<nat, Socket>, ids: seq<nat>, k: nat)
    requires forall j :: j in ids ==> j in m && m[j].id == j
    ensures forall j :: j in Exclude(ids, k) ==> j in m - {k}
    ensures Snapshot(m - {k}, Exclude(ids, k)) == Without(Snapshot(m, ids), k)
  {
    if ids != [] {
      var rest := ids[1..];
      SnapshotDelete(m, rest, k);
      SnapshotCons(m, ids);
      var rs := Snapshot(m, ids);
      var head := ConnOf(m[ids[0]]);
      assert rs[1..] == Snapshot(m, rest);
      assert head.id == ids[0];
      if ids[0] == k {
        assert Exclude(ids, k) == Exclude(rest, k);
        assert Without(rs, k) == Without(rs[1..], k);
      } else {
        var kept := Exclude(ids, k);
        assert kept == [ids[0]] + Exclude(rest, k);
        SnapshotCons(m - {k}, kept);
        assert kept[1..] == Exclude(rest, k);
        assert Without(rs, k) == [head] + Without(rs[1..], k);
      }
    }
  }

  /** The registry of a running server, with underscore's id counter. */
  class Server {
    var sockets: map<nat, Socket>
    var counter: nat

    /** Every registered socket sits under the id `open` gave it, and every
        id handed out so far is at most `counter`. */
    ghost predicate Valid()
      reads this, sockets.Values
    {
      forall k :: k in sockets ==> 0 < k <= counter && sockets[k].id == k
    }

    constructor ()
      ensures Valid() && sockets == map[] && counter == 0 && Records() == []
    {
      sockets, counter := map[], 0;
      new;
      assert sockets.Keys == {};
      assert KeysBelow(sockets.Keys, 1) == KeysBelow(sockets.Keys, 0) + [];
    }

    /** The registered ids in the order the registry is enumerated: every
        key up to the last id handed out, ascending. */
    function Order(): (r: seq<nat>)
      reads this
      ensures forall k :: k in r <==> k in sockets && k <= counter
      ensures Increasing(r)
    {
      KeysBelow(sockets.Keys, counter + 1)
    }

    /** The registry as the handlers see it when they enumerate `sockets`:
        in a valid registry, one record per registered socket, each listed
        under its own id, in enumeration order. */
    function Records(): (r: seq<Conn>)
      reads this, sockets.Values
      ensures Valid() ==> Ids(r) == Order()
    {
      Snapshot(sockets, Order())
    }

    /** In a valid registry no id is listed twice. */
    lemma RecordIdsDistinct()
      requires Valid()
      ensures Distinct(Ids(Records()))
    {
    }

    /** The enumeration lists exactly the registered sockets. */
    lemma RecordsMatchRegistry()
      requires Valid()
      ensures forall k :: k in sockets ==> ConnOf(sockets[k]) in Records()
      ensures forall c :: c in Records() ==> c.id in sockets && c == ConnOf(sockets[c.id])
    {
      var ids := Order();
      forall k | k in sockets ensures ConnOf(sockets[k]) in Records() {
        var i :| 0 <= i < |ids| && ids[i] == k;
        assert Records()[i] == ConnOf(sockets[k]);
      }
    }

    /** A registered id is enumerated. */
    lemma Enumerated(k: nat)
      requires Valid() && k in sockets
      ensures k in Ids(Records())
    {
    }

    /** The `open` listener: registers the socket under a fresh
        `_.uniqueId()`, larger than every id handed out before. */
    method Open(s: Socket)
      requires Valid() && s !in sockets.Values
      modifies this, s`id
      ensures Valid()
      ensures counter == old(counter) + 1 && s.id == counter
      ensures forall k :: k in old(sockets) ==> k < s.id
      ensures sockets == old(sockets)[s.id := s]
      ensures Records() == old(Records()) + [ConnOf(s)]
    {
      ghost var ids := Order();
      ghost var m0 := sockets;
      ghost var before := Snapshot(m0, ids);
      counter := counter + 1;
      s.id := counter;
      sockets := sockets[counter := s];
      assert Snapshot(m0, ids) == before;
      KeysBelowAgree(sockets.Keys, m0.Keys, counter);
      assert Order() == ids + [counter];
      SnapshotExtend(m0, ids, counter, s);
      assert Valid() by {
        forall k | k in sockets ensures 0 < k <= counter && sockets[k].id == k {
          if k != counter {
            assert k in m0 && m0[k] != s;
          }
        }
      }
    }

    /** The `close` listener: deletes the socket's entry and, when it was the
        last connection of an authenticated user, tells the remaining
        authenticated connections that the user left, with a presence list
        recomputed after the deletion. */
    method Close(s: Socket, at: Time) returns (sent: seq<Delivery>)
      requires Valid()
      modifies this
      ensures Valid() && counter == old(counter)
      ensures sockets == old(sockets) - {s.id}
      ensures Records() == Without(old(Records()), s.id)
      ensures sent != [] ==> s.userId.Some? && !HasUser(Records(), s.userId.value)
      ensures s.userId.Some? && !HasUser(Records(), s.userId.value) ==>
        var left := Message(UsersById(s.userId.value), at, true, LeftText);
        sent == Broadcast(Records(), Delta(Some(left), Some(Users(Records()))))
      ensures sent != [] ==> UsersById(s.userId.value) !in Users(Records())
    {
      var userId := s.userId;
      ghost var ids := Order();
      ghost var m0 := sockets;
      ghost var before := Snapshot(m0, ids);
      sockets := sockets - {s.id};
      assert Snapshot(m0, ids) == before;
      assert sockets.Keys == m0.Keys - {s.id};
      KeysBelowDelete(m0.Keys, s.id, counter + 1);
      assert Order() == Exclude(ids, s.id);
      SnapshotDelete(m0, ids, s.id);
      var rs := Records();
      if userId.Some? && !HasUser(rs, userId.value) {
        var left := Message(UsersById(userId.value), at, true, LeftText);
        sent := Broadcast(rs, Delta(Some(left), Some(Users(rs))));
      } else {
        sent := [];
      }
    }

    /** Changing session fields keeps every socket under its own id. */
    twostate lemma SessionChangeKeepsValid(s: Socket)
      requires old(Valid()) && unchanged(this)
      requires s.id == old(s.id)
      requires forall k :: k in sockets && sockets[k] != s ==> unchanged(sockets[k])
      ensures Valid()
    {
      forall k | k in sockets ensures sockets[k].id == k {
        if sockets[k] != s {
          assert old(sockets[k].id) == k;
        }
      }
    }

    /** Changing one socket's session fields changes its own entry of the
        registry view, if it is registered, and nothing else. */
    twostate lemma SessionChange(s: Socket)
      requires old(Valid()) && unchanged(this)
      requires s.id == old(s.id)
      requires forall k :: k in sockets && sockets[k] != s ==> unchanged(sockets[k])
      ensures Records() == if s in sockets.Values then Replace(old(Records()), ConnOf(s)) else old(Records())
    {
      if s in sockets.Values {
        var k0 :| k0 in sockets && sockets[k0] == s;
        RegisteredSessionChange(s);
      } else {
        UnregisteredSessionChange(s);
      }
    }

    twostate lemma RegisteredSessionChange(s: Socket)
      requires old(Valid()) && unchanged(this)
      requires s.id in sockets && sockets[s.id] == s
      requires forall k :: k in sockets && sockets[k] != s ==> unchanged(sockets[k])
      ensures Records() == Replace(old(Records()), ConnOf(s))
    {
      var ids := Order();
      var before := old(Records());
      forall i | 0 <= i < |ids| ensures Records()[i] == Replace(before, ConnOf(s))[i] {
        assert ids[i] in ids;
        assert before[i] == old(ConnOf(sockets[ids[i]]));
      }
    }

    twostate lemma UnregisteredSessionChange(s: Socket)
      requires old(Valid()) && unchanged(this)
      requires s !in sockets.Values
      requires forall k :: k in sockets && sockets[k] != s ==> unchanged(sockets[k])
      ensures Records() == old(Records())
    {
      var ids := Order();
      var before := old(Records());
      forall i | 0 <= i < |ids| ensures Records()[i] == before[i] {
        assert ids[i] in ids;
      }
    }

    /** The `users` route: the presence list, recomputed from the registry.
        It names every user with at least one authenticated connection, once,
        and no one else. */
    function UsersRoute(): (r: seq<Ref>)
      requires Valid()
      reads this, sockets.Values
      ensures Distinct(r)
      ensures forall id: UserId {:trigger UsersById(id)} ::
        UsersById(id) in r <==> exists k :: k in sockets && sockets[k].userId == Some(id)
    {
      RecordsMatchRegistry();
      Users(Records())
    }

    /** What `auth!` does once the identity service has answered `answer`
        for `key`: a rejection propagates and changes nothing; a socket that
        already holds a key is left alone; otherwise the socket takes the key
        and the user id, every authenticated connection receives the new
        presence list (with a join message for a user who had no connection
        before), and the caller receives the session patch. */
    twostate predicate AuthEffect(s: Socket, key: string, answer: KeyAnswer, at: Time,
                                  new r: Outcome<Option<Session>>, new sent: seq<Delivery>)
      reads this, sockets.Values, s
    {
      if answer.KeyRejected? then
        r == Fail(ServiceError(answer.message)) && sent == [] && unchanged(s)
      else if old(s.key) != "" then
        r == Ok(None) && sent == [] && unchanged(s)
      else
        && s.id == old(s.id) && s.key == key && s.userId == Some(answer.id)
        && r == Ok(Some(Session(key, answer.id)))
        && Records() == (if s in sockets.Values then Replace(old(Records()), ConnOf(s)) else old(Records()))
        && var joined := Message(UsersById(answer.id), at, true, JoinedText);
           sent == Broadcast(Records(), Delta(if HasUser(old(Records()), answer.id) then None else Some(joined),
                                              Some(Users(Records()))))
    }

    /** The `auth!.$key` handler, with the identity service's
        `GET /keys/me` given as `keysMe`. When it authenticates a registered
        socket, the new user is in the broadcast presence list and the socket
        itself is among the recipients. */
    method Auth(s: Socket, key: string, keysMe: string -> KeyAnswer, at: Time)
      returns (r: Outcome<Option<Session>>, sent: seq<Delivery>)
      requires Valid()
      modifies s`key, s`userId
      ensures Valid()
      ensures AuthEffect(s, key, keysMe(key), at, r, sent)
      ensures keysMe(key).KeyOwner? && old(s.key) == "" && s in sockets.Values ==>
        && UsersById(keysMe(key).id) in Users(Records())
        && s.id in Recipients(sent)
    {
      var answer := keysMe(key);
      if answer.KeyRejected? {
        r, sent := Fail(ServiceError(answer.message)), [];
      } else if s.key != "" {
        r, sent := Ok(None), [];
      } else {
        var id := answer.id;
        var known := HasUser(Records(), id);
        ghost var before := Records();
        ghost var registered := s in sockets.Values;
        if registered {
          Enumerated(s.id);
        }
        s.key := key;
        s.userId := Some(id);
        SessionChangeKeepsValid(s);
        SessionChange(s);
        var users := Users(Records());
        var delta := Delta(None, Some(users));
        if !known {
          delta := delta.(messages := Some(Message(UsersById(id), at, true, JoinedText)));
        }
        sent := Broadcast(Records(), delta);
        if registered {
          ReplaceAuthenticates(before, ConnOf(s));
          BroadcastReaches(Records(), delta, ConnOf(s));
        }
        r := Ok(Some(Session(key, id)));
      }
    }

    /** The `signIn!.$obj` handler: logs in with the fixed community and
        device, maps a rejected login to `AUTH_FAILED`, and otherwise runs
        `auth!` on the same socket with the key it received. A successful
        response without `data` makes reading the key throw; that error is
        not caught by the rejection handler and fails the request as it is. */
    method SignIn(s: Socket, username: string, password: string,
                  login: LoginRequest -> LoginAnswer, keysMe: string -> KeyAnswer, at: Time)
      returns (r: Outcome<Option<Session>>, sent: seq<Delivery>)
      requires Valid()
      modifies s`key, s`userId
      ensures Valid()
      ensures login(LoginRequest(username, password, CommunityId, DeviceInfo)).LoginRejected? ==>
        r == Fail(AuthFailed) && sent == [] && unchanged(s)
      ensures login(LoginRequest(username, password, CommunityId, DeviceInfo)).LoginMalformed? ==>
        r == Fail(ServiceError(login(LoginRequest(username, password, CommunityId, DeviceInfo)).message)) &&
        sent == [] && unchanged(s)
      ensures login(LoginRequest(username, password, CommunityId, DeviceInfo)).LoginKey? ==>
        var key := login(LoginRequest(username, password, CommunityId, DeviceInfo)).key;
        AuthEffect(s, key, keysMe(key), at, r, sent)
    {
      var answer := login(LoginRequest(username, password, CommunityId, DeviceInfo));
      match answer
      case LoginRejected(_) =>
        r, sent := Fail(AuthFailed), [];
      case LoginMalformed(message) =>
        r, sent := Fail(ServiceError(message)), [];
      case LoginKey(key) =>
        r, sent := Auth(s, key, keysMe, at);
    }

    /** The `createMessage!.$obj` handler: without a user id it throws
        `AUTH_REQUIRED` and sends nothing; otherwise it sends one chat
        message from the sender's user, without the system flag, to every
        authenticated registered socket exactly once and to no other. */
    method CreateMessage(s: Socket, content: string, at: Time)
      returns (r: Outcome<()>, sent: seq<Delivery>)
      requires Valid()
      ensures r == Fail(AuthRequired) <==> s.userId.None?
      ensures s.userId.None? ==> sent == []
      ensures s.userId.Some? ==>
        && r == Ok(())
        && (forall d :: d in sent ==>
              d.event == PaveEvent &&
              d.delta == Delta(Some(Message(UsersById(s.userId.value), at, false, content)), None))
        && (forall k :: k in Recipients(sent) <==> k in sockets && sockets[k].userId.Some?)
        && Distinct(Recipients(sent))
    {
      if s.userId.None? {
        return Fail(AuthRequired), [];
      }
      var delta := Delta(Some(Message(UsersById(s.userId.value), at, false, content)), None);
      sent := Broadcast(Records(), delta);
      r := Ok(());
      RecordIdsDistinct();
      RecordsMatchRegistry();
      BroadcastReachesExactlyAuthenticated(Records(), delta);
    }
  }
}
