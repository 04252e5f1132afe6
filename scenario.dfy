/** A client of the registry: two users connect and sign in, one posts a
    message, and the other leaves. What each step sends follows from the
    handlers' contracts alone. */
module Scenario {
  import opened Protocol
  import opened Presence
  import opened Registry

  /** The identity service of the scenario: two keys, two users. */
  function KeysMe(key: string): KeyAnswer {
    if key == "key-a" then KeyOwner(7) else KeyOwner(8)
  }

  /** Two connections open; neither is authenticated yet. */
  method Connect() returns (server: Server, a: Socket, b: Socket)
    ensures fresh(server) && fresh(a) && fresh(b) && a != b
    ensures server.Valid() && server.sockets == map[1 := a, 2 := b]
    ensures server.Records() == [Conn(1, "", None), Conn(2, "", None)]
  {
    server := new Server();
    a := new Socket();
    b := new Socket();
    OpenBoth(server, a, b);
  }

  method OpenBoth(server: Server, a: Socket, b: Socket)
    requires server.Valid() && server.sockets == map[] && server.counter == 0 && a != b
    requires ConnOf(a) == Conn(0, "", None) && ConnOf(b) == Conn(0, "", None)
    requires server.Records() == []
    modifies server, a`id, b`id
    ensures server.Valid() && server.sockets == map[1 := a, 2 := b]
    ensures server.Records() == [Conn(1, "", None), Conn(2, "", None)]
  {
    server.Open(a);
    assert a.id == 1 && server.sockets == map[1 := a];
    assert server.Records() == [Conn(1, "", None)];
    server.Open(b);
    assert b.id == 2;
  }

  /** A registered connection without a key authenticates: in the registry
      only its record changes, to the key and the key's owner. */
  method SignInStep(server: Server, s: Socket, key: string, at: Time)
    requires server.Valid() && s.id in server.sockets && server.sockets[s.id] == s && s.key == ""
    modifies s
    ensures server.Valid() && server.sockets == old(server.sockets)
    ensures server.Records() == Replace(old(server.Records()), Conn(s.id, key, Some(KeysMe(key).id)))
  {
    var r, sent := server.Auth(s, key, KeysMe, at);
  }

  lemma ReplacePair(c1: Conn, c2: Conn, c: Conn)
    ensures Replace([c1, c2], c) == [if c1.id == c.id then c else c1, if c2.id == c.id then c else c2]
  {
  }

  /** The first connection authenticates as user 7. */
  method SignInFirst(server: Server, a: Socket, b: Socket)
    requires server.Valid() && server.sockets == map[1 := a, 2 := b] && a != b
    requires server.Records() == [Conn(1, "", None), Conn(2, "", None)]
    modifies a
    ensures server.Valid() && server.sockets == map[1 := a, 2 := b]
    ensures server.Records() == [Conn(1, "key-a", Some(7)), Conn(2, "", None)]
  {
    assert ConnOf(a) == Conn(1, "", None) by {
      server.RecordsMatchRegistry();
      assert ConnOf(server.sockets[1]) in server.Records();
    }
    SignInStep(server, a, "key-a", 10);
    ReplacePair(Conn(1, "", None), Conn(2, "", None), Conn(1, "key-a", Some(7)));
  }

  /** The second connection authenticates as user 8. */
  method SignInSecond(server: Server, a: Socket, b: Socket)
    requires server.Valid() && server.sockets == map[1 := a, 2 := b] && a != b
    requires server.Records() == [Conn(1, "key-a", Some(7)), Conn(2, "", None)]
    modifies b
    ensures server.Valid() && server.sockets == map[1 := a, 2 := b]
    ensures server.Records() == [Conn(1, "key-a", Some(7)), Conn(2, "key-b", Some(8))]
  {
    assert ConnOf(b) == Conn(2, "", None) by {
      server.RecordsMatchRegistry();
      assert ConnOf(server.sockets[2]) in server.Records();
    }
    SignInStep(server, b, "key-b", 11);
    ReplacePair(Conn(1, "key-a", Some(7)), Conn(2, "", None), Conn(2, "key-b", Some(8)));
  }

  /** The first user's message reaches both connections, its sender's
      included. */
  method Chat(server: Server, a: Socket, b: Socket)
    requires server.Valid() && server.sockets == map[1 := a, 2 := b] && a != b
    requires server.Records() == [Conn(1, "key-a", Some(7)), Conn(2, "key-b", Some(8))]
  {
    assert a.userId == Some(7) && b.userId == Some(8) by {
      server.RecordsMatchRegistry();
      assert ConnOf(server.sockets[1]) in server.Records();
      assert ConnOf(server.sockets[2]) in server.Records();
    }
    var posted, chat := server.CreateMessage(a, "hi", 12);
    assert posted == Ok(());
    assert 1 in Recipients(chat) && 2 in Recipients(chat);
  }

  /** When the second user leaves, only the first connection remains, it
      alone hears that the user left, and the departed user is no longer
      present. */
  method Leave(server: Server, a: Socket, b: Socket)
    requires server.Valid() && server.sockets == map[1 := a, 2 := b] && a != b
    requires server.Records() == [Conn(1, "key-a", Some(7)), Conn(2, "key-b", Some(8))]
    modifies server
  {
    assert b.userId == Some(8) && b.id == 2 by {
      server.RecordsMatchRegistry();
      assert ConnOf(server.sockets[2]) in server.Records();
    }
    var bye := server.Close(b, 13);
    var left := Message(UsersById(8), 13, true, LeftText);
    RemainingAfterLeave(Delta(Some(left), Some(Users([Conn(1, "key-a", Some(7))]))));
    assert server.Records() == [Conn(1, "key-a", Some(7))];
    assert Recipients(bye) == [1];
    assert UsersById(8) !in server.UsersRoute();
  }

  /** Deleting the second connection leaves the first, which alone receives
      a broadcast and holds no connection of user 8. */
  lemma RemainingAfterLeave(delta: Delta)
    ensures Without([Conn(1, "key-a", Some(7)), Conn(2, "key-b", Some(8))], 2) == [Conn(1, "key-a", Some(7))]
    ensures !HasUser([Conn(1, "key-a", Some(7))], 8)
    ensures Recipients(Broadcast([Conn(1, "key-a", Some(7))], delta)) == [1]
  {
    var rs := [Conn(1, "key-a", Some(7))];
    assert Authenticated(rs) == rs by {
      assert Authenticated(rs) == [rs[0]] + Authenticated(rs[1..]);
    }
  }

  method TwoUsersChat()
  {
    var server, a, b := Connect();
    SignInFirst(server, a, b);
    SignInSecond(server, a, b);
    Chat(server, a, b);
    Leave(server, a, b);
  }
}
