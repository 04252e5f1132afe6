/** The projections the server computes from its registry: the authenticated
    connections, the list of present users, and the recipients of a
    broadcast. They work on a snapshot of the registry, listed in the order
    in which the registry is enumerated. */
module Presence {
  import opened Protocol

  predicate Distinct<T(==)>(xs: seq<T>) {
    forall i, j :: 0 <= i < j < |xs| ==> xs[i] != xs[j]
  }

  /** `_.any(sockets, {userId: id})`: some connection carries this user id.
      As user ids are truthy, that connection is an authenticated one. */
  function HasUser(rs: seq<Conn>, id: UserId): (b: bool)
    ensures b <==> exists c :: c in Authenticated(rs) && c.userId == Some(id)
  {
    exists c :: c in rs && c.userId == Some(id)
  }

  /** `authenticatedSockets`: the connections with a user id, in order. */
  function Authenticated(rs: seq<Conn>): (r: seq<Conn>)
    ensures forall c :: c in r <==> c in rs && c.userId.Some?
    ensures |r| <= |rs|
  {
    if rs == [] then []
    else (if rs[0].userId.Some? then [rs[0]] else []) + Authenticated(rs[1..])
  }

  /** `_.unique`: the first occurrence of every value, in order of appearance
      (see `UniqueKeepsFirstOrder`). */
  function Unique(xs: seq<UserId>): (r: seq<UserId>)
    ensures forall x :: x in r <==> x in xs
    ensures Distinct(r)
  {
    if xs == [] then []
    else
      var u := Unique(xs[..|xs| - 1]);
      var x := xs[|xs| - 1];
      if x in u then u else u + [x]
  }

  /** `.map('userId')` over the authenticated connections: their user ids in
      the same order, so it lists every user id some connection carries, and
      no other. */
  function UserIds(rs: seq<Conn>): (r: seq<UserId>)
    ensures |r| == |Authenticated(rs)|
    ensures forall i :: 0 <= i < |r| ==> Some(r[i]) == Authenticated(rs)[i].userId
    ensures forall id: UserId :: id in r <==> HasUser(rs, id)
  {
    var a := Authenticated(rs);
    var r := seq(|a|, i requires 0 <= i < |a| => assert a[i] in a; a[i].userId.value);
    forall id: UserId ensures id in r <==> HasUser(rs, id) {
      if id in r {
        var i :| 0 <= i < |a| && r[i] == id;
        assert a[i] in a;
      }
      if HasUser(rs, id) {
        var c :| c in rs && c.userId == Some(id);
        assert c in a;
        var i :| 0 <= i < |a| && a[i] == c;
        assert r[i] == id;
      }
    }
    r
  }

  /** `getUsers`: one reference per distinct user among the authenticated
      connections; a user holding several connections appears once, and an
      unauthenticated connection contributes nothing. */
  function Users(rs: seq<Conn>): (r: seq<Ref>)
    ensures forall id: UserId {:trigger UsersById(id)} :: UsersById(id) in r <==> HasUser(rs, id)
    ensures Distinct(r)
  {
    var ids := Unique(UserIds(rs));
    var r := seq(|ids|, i requires 0 <= i < |ids| => UsersById(ids[i]));
    assert forall id: UserId {:trigger UsersById(id)} :: UsersById(id) in r <==> id in ids by {
      forall id: UserId ensures UsersById(id) in r <==> id in ids {
        if id in ids {
          var i :| 0 <= i < |ids| && ids[i] == id;
          assert r[i] == UsersById(id);
        }
      }
    }
    r
  }

  /** The socket ids a list of deliveries reaches, in order. */
  function Recipients(sent: seq<Delivery>): (r: seq<nat>)
  {
    seq(|sent|, i requires 0 <= i < |sent| => sent[i].to)
  }

  /** `broadcast('pave', delta)`: one delivery per authenticated connection,
      in the order the connections are listed, each carrying `delta` as the
      `pave` event. */
  function Broadcast(rs: seq<Conn>, delta: Delta): (r: seq<Delivery>)
    ensures Recipients(r) == Ids(Authenticated(rs))
    ensures forall d :: d in r ==> d.event == PaveEvent && d.delta == delta
  {
    var a := Authenticated(rs);
    seq(|a|, i requires 0 <= i < |a| => Delivery(a[i].id, PaveEvent, delta))
  }

  /** The ids of the connections in a snapshot, in order. */
  function Ids(rs: seq<Conn>): (r: seq<nat>)
  {
    seq(|rs|, i requires 0 <= i < |rs| => rs[i].id)
  }

  /** A broadcast reaches every authenticated connection and no other; when
      the snapshot's ids are distinct, each recipient receives it exactly
      once. */
  lemma BroadcastReachesExactlyAuthenticated(rs: seq<Conn>, delta: Delta)
    ensures forall k :: k in Recipients(Broadcast(rs, delta)) <==>
                        exists c :: c in rs && c.id == k && c.userId.Some?
    ensures Distinct(Ids(rs)) ==> Distinct(Recipients(Broadcast(rs, delta)))
  {
    var a := Authenticated(rs);
    var sent := Broadcast(rs, delta);
    forall k ensures k in Recipients(sent) <==> exists c :: c in rs && c.id == k && c.userId.Some? {
      if k in Recipients(sent) {
        var i :| 0 <= i < |sent| && Recipients(sent)[i] == k;
        assert a[i] in a;
      }
      if exists c :: c in rs && c.id == k && c.userId.Some? {
        var c :| c in rs && c.id == k && c.userId.Some?;
        assert c in a;
        var i :| 0 <= i < |a| && a[i] == c;
        assert Recipients(sent)[i] == k;
      }
    }
    if Distinct(Ids(rs)) {
      AuthenticatedKeepsDistinctIds(rs);
      assert Recipients(sent) == Ids(a);
    }
  }

  /** An authenticated connection is among a broadcast's recipients. */
  lemma BroadcastReaches(rs: seq<Conn>, delta: Delta, c: Conn)
    requires c in Authenticated(rs)
    ensures c.id in Recipients(Broadcast(rs, delta))
  {
    var a := Authenticated(rs);
    var i :| 0 <= i < |a| && a[i] == c;
    assert Recipients(Broadcast(rs, delta))[i] == c.id;
  }

  /** Filtering keeps a snapshot's ids distinct. */
  lemma {:induction false} AuthenticatedKeepsDistinctIds(rs: seq<Conn>)
    requires Distinct(Ids(rs))
    ensures Distinct(Ids(Authenticated(rs)))
  {
    if rs != [] {
      var tail := rs[1..];
      assert Ids(tail) == Ids(rs)[1..];
      AuthenticatedKeepsDistinctIds(tail);
      var t := Authenticated(tail);
      if rs[0].userId.Some? {
        forall c | c in t ensures c.id != rs[0].id {
          var j :| 0 <= j < |tail| && tail[j] == c;
          assert Ids(rs)[j + 1] == c.id && Ids(rs)[0] == rs[0].id;
        }
        PrependKeepsDistinctIds(rs[0], t);
        assert Authenticated(rs) == [rs[0]] + t;
      } else {
        assert Authenticated(rs) == t;
      }
    }
  }

  /** `_.filter` keeps the order of the registry: filtering a concatenation
      filters each part. */
  lemma {:induction false} AuthenticatedKeepsOrder(xs: seq<Conn>, ys: seq<Conn>)
    ensures Authenticated(xs + ys) == Authenticated(xs) + Authenticated(ys)
  {
    if xs == [] {
      assert xs + ys == ys;
    } else {
      var zs := xs + ys;
      var head := if xs[0].userId.Some? then [xs[0]] else [];
      assert zs[0] == xs[0];
      assert zs[1..] == xs[1..] + ys;
      AuthenticatedKeepsOrder(xs[1..], ys);
      calc {
        Authenticated(zs);
        head + Authenticated(zs[1..]);
        head + (Authenticated(xs[1..]) + Authenticated(ys));
        (head + Authenticated(xs[1..])) + Authenticated(ys);
        Authenticated(xs) + Authenticated(ys);
      }
    }
  }

  /** A single connection passes the filter iff it is authenticated. */
  lemma AuthenticatedSingle(c: Conn)
    ensures Authenticated([c]) == if c.userId.Some? then [c] else []
  {
    assert [c][1..] == [];
  }

  /** The position of the first occurrence of `x` in `xs`. */
  function First(xs: seq<UserId>, x: UserId): (i: nat)
    requires x in xs
    ensures i < |xs| && xs[i] == x
    ensures forall j :: 0 <= j < i ==> xs[j] != x
  {
    if xs[0] == x then 0 else First(xs[1..], x) + 1
  }

  /** `_.unique` lists the values in the order of their first occurrences. */
  lemma {:induction false} UniqueKeepsFirstOrder(xs: seq<UserId>)
    ensures forall i, j :: 0 <= i < j < |Unique(xs)| ==>
      First(xs, Unique(xs)[i]) < First(xs, Unique(xs)[j])
  {
    if xs != [] {
      var p := xs[..|xs| - 1];
      var x := xs[|xs| - 1];
      var u := Unique(p);
      UniqueKeepsFirstOrder(p);
      assert xs == p + [x];
      forall y | y in p ensures First(xs, y) == First(p, y) {
        FirstOfPrefix(p, x, y);
      }
      if x !in u {
        var r := u + [x];
        assert Unique(xs) == r;
        assert First(xs, x) == |p| by {
          forall j | 0 <= j < |p| ensures xs[j] != x {
            assert xs[j] == p[j] && p[j] in p;
          }
        }
        forall i, j | 0 <= i < j < |r| ensures First(xs, r[i]) < First(xs, r[j]) {
          assert r[i] == u[i] && u[i] in u;
          if j < |u| {
            assert r[j] == u[j] && u[j] in u;
          }
        }
      } else {
        forall i, j | 0 <= i < j < |u| ensures First(xs, u[i]) < First(xs, u[j]) {
          assert u[i] in u && u[j] in u;
        }
      }
    }
  }

  lemma FirstOfPrefix(p: seq<UserId>, x: UserId, y: UserId)
    requires y in p
    ensures First(p + [x], y) == First(p, y)
  {
    var i := First(p, y);
    assert (p + [x])[i] == y;
    var k := First(p + [x], y);
    assert k <= i;
    assert (p + [x])[k] == p[k];
  }

  lemma PrependKeepsDistinctIds(c: Conn, t: seq<Conn>)
    requires Distinct(Ids(t))
    requires forall d :: d in t ==> d.id != c.id
    ensures Distinct(Ids([c] + t))
  {
    var ids := Ids([c] + t);
    assert ids == [c.id] + Ids(t);
    forall i, j | 0 <= i < j < |ids| ensures ids[i] != ids[j] {
      assert t[j - 1] in t;
    }
  }

  /** The snapshot with the connection registered under `k` deleted. */
  function Without(rs: seq<Conn>, k: nat): (r: seq<Conn>)
    ensures forall c :: c in r <==> c in rs && c.id != k
    ensures Ids(r) == Exclude(Ids(rs), k)
  {
    if rs == [] then []
    else
      var head := if rs[0].id == k then [] else [rs[0]];
      var t := Without(rs[1..], k);
      IdsSplit(rs);
      IdsAppend(head, t);
      head + t
  }

  lemma IdsSplit(rs: seq<Conn>)
    requires rs != []
    ensures Ids(rs)[0] == rs[0].id && Ids(rs)[1..] == Ids(rs[1..])
  {
  }

  lemma IdsAppend(xs: seq<Conn>, ys: seq<Conn>)
    ensures Ids(xs + ys) == Ids(xs) + Ids(ys)
  {
  }

  /** The id list with `k` deleted. */
  function Exclude(ids: seq<nat>, k: nat): (r: seq<nat>)
    ensures forall j :: j in r <==> j in ids && j != k
  {
    if ids == [] then []
    else (if ids[0] == k then [] else [ids[0]]) + Exclude(ids[1..], k)
  }

  /** The snapshot in which the connection with `c`'s id now reads as `c`. */
  function Replace(rs: seq<Conn>, c: Conn): (r: seq<Conn>)
  {
    seq(|rs|, i requires 0 <= i < |rs| => if rs[i].id == c.id then c else rs[i])
  }

  /** Once a registered connection is given a user id, that user is present
      and the connection is among the authenticated ones. */
  lemma ReplaceAuthenticates(rs: seq<Conn>, c: Conn)
    requires c.userId.Some?
    requires c.id in Ids(rs)
    ensures HasUser(Replace(rs, c), c.userId.value)
    ensures c in Authenticated(Replace(rs, c))
  {
    var i :| 0 <= i < |rs| && Ids(rs)[i] == c.id;
    assert Replace(rs, c)[i] == c;
  }
}
