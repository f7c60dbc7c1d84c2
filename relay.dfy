/**
 * The connection registry and message router of the relay server: the
 * process-wide `users` map from socket id to username, and the `register`,
 * `sendMessage` and `disconnect` handlers that read and update it. Each
 * handler runs to completion before the next one starts, so each is one
 * method call; what a handler would emit is returned as a list of events.
 */
module Relay {
  import opened Wrappers
  import opened OrderedTable
  import opened Events

  /** The error text sent to the sender when nobody is registered under `to`. */
  function NotOnline(to: string): (r: string)
    ensures |r| == |to| + 21
    ensures r[..6] == "User \"" && r[|r| - 15..] == "\" is not online"
    ensures r[6..|r| - 15] == to
  {
    "User \"" + to + "\" is not online"
  }

  /**
   * What `sendMessage` emits, given the registry at the time of the call:
   * a delivery to the earliest registered socket named `to` plus a
   * confirmation to the sender, or a single error to the sender.
   */
  function Route(
    users: seq<(SocketId, Username)>, sender: SocketId,
    from: string, to: string, message: string, receivedAt: string, sentAt: string
  ): (out: seq<Emit>)
    ensures |out| == 2 <==> to in Values(users)
    ensures to !in Values(users) ==> out == [Emit(Socket(sender), Error(NotOnline(to)))]
    ensures to in Values(users) ==>
      && (exists i :: EarliestWith(users, to, i)
                    && out[0] == Emit(Socket(users[i].0), ReceiveMessage(Payload(from, to, message, receivedAt))))
      && out[1] == Emit(Socket(sender), MessageSent(Payload(from, to, message, sentAt)))
  {
    match FirstKeyOf(users, to)
    case Some(recipient) =>
      [ Emit(Socket(recipient), ReceiveMessage(Payload(from, to, message, receivedAt))),
        Emit(Socket(sender), MessageSent(Payload(from, to, message, sentAt))) ]
    case None =>
      [Emit(Socket(sender), Error(NotOnline(to)))]
  }

  class Server {
    /** The `users` map: socket id to username, in insertion order. */
    var users: seq<(SocketId, Username)>

    /** A `Map` never holds two entries for one socket id. */
    ghost predicate Valid()
      reads this
    {
      DistinctKeys(users)
    }

    constructor ()
      ensures Valid() && users == []
    {
      users := [];
    }

    /** The `register` handler: record the socket's name, then broadcast every name. */
    method Register(socket: SocketId, username: Username) returns (out: seq<Emit>)
      requires Valid()
      modifies this
      ensures Valid()
      ensures users == Set(old(users), socket, username)
      ensures forall other :: other != socket ==> Get(users, other) == Get(old(users), other)
      ensures out == [Emit(Everyone, UserList(Values(users)))]
    {
      SetSpec(users, socket, username);
      users := Set(users, socket, username);
      out := [Emit(Everyone, UserList(Values(users)))];
    }

    /** The recipient scan of `sendMessage`: the first entry whose name is `to`. */
    method FindRecipient(to: Username) returns (r: Option<SocketId>)
      ensures r == FirstKeyOf(users, to)
    {
      r := None;
      for i := 0 to |users|
        invariant r.None?
        invariant forall j :: 0 <= j < i ==> users[j].1 != to
      {
        if users[i].1 == to {
          EarliestIsFirstKey(users, to, i);
          r := Some(users[i].0);
          break;
        }
      }
      if r.None? {
        assert forall j :: 0 <= j < |users| ==> Values(users)[j] != to;
      }
    }

    /** The `sendMessage` handler; it reads the registry and never changes it. */
    method SendMessage(
      sender: SocketId, from: string, to: string, message: string, receivedAt: string, sentAt: string
    ) returns (out: seq<Emit>)
      ensures out == Route(users, sender, from, to, message, receivedAt, sentAt)
    {
      var recipient := FindRecipient(to);
      if recipient.Some? {
        out := [ Emit(Socket(recipient.value), ReceiveMessage(Payload(from, to, message, receivedAt))),
                 Emit(Socket(sender), MessageSent(Payload(from, to, message, sentAt))) ];
      } else {
        out := [Emit(Socket(sender), Error(NotOnline(to)))];
      }
    }

    /** The `disconnect` handler: forget the socket if it registered, then broadcast every name. */
    method Disconnect(socket: SocketId) returns (out: seq<Emit>)
      requires Valid()
      modifies this
      ensures Valid()
      ensures users == Delete(old(users), socket)
      ensures socket !in Keys(old(users)) ==> users == old(users)
      ensures Get(users, socket) == None
      ensures forall other :: other != socket ==> Get(users, other) == Get(old(users), other)
      ensures out == [Emit(Everyone, UserList(Values(users)))]
    {
      DeleteSpec(users, socket);
      users := Delete(users, socket);
      out := [Emit(Everyone, UserList(Values(users)))];
    }
  }

  /** Of two sockets registered under one name, the one inserted later is never the recipient. */
  lemma EarliestWins(users: seq<(SocketId, Username)>, i: int, j: int)
    requires DistinctKeys(users)
    requires 0 <= i < j < |users| && users[i].1 == users[j].1
    ensures FirstKeyOf(users, users[j].1).Some?
    ensures FirstKeyOf(users, users[j].1) != Some(users[j].0)
  {
    var name := users[j].1;
    assert Values(users)[i] == name;
    var m := FirstIndex(Values(users), name).value;
    assert FirstKeyOf(users, name) == Some(users[m].0);
    assert m <= i;
  }

  /**
   * Re-registering a socket keeps its place: if no earlier entry has the new
   * name, that socket becomes the recipient for the name, whatever sockets
   * registered the same name after it.
   */
  lemma ReRegisterKeepsPriority(users: seq<(SocketId, Username)>, i: int, name: Username)
    requires DistinctKeys(users) && 0 <= i < |users|
    requires forall j :: 0 <= j < i ==> users[j].1 != name
    ensures FirstKeyOf(Set(users, users[i].0, name), name) == Some(users[i].0)
  {
    var socket := users[i].0;
    var r := Set(users, socket, name);
    KeyIndex(users, i);
    assert r == users[i := (socket, name)];
    EarliestIsFirstKey(r, name, i);
  }

  /** A socket that registers a name somebody already holds does not receive that name's messages. */
  lemma NewcomerLoses(users: seq<(SocketId, Username)>, socket: SocketId, name: Username)
    requires DistinctKeys(users) && socket !in Keys(users) && name in Values(users)
    ensures FirstKeyOf(Set(users, socket, name), name).Some?
    ensures FirstKeyOf(Set(users, socket, name), name) != Some(socket)
  {
    var r := Set(users, socket, name);
    SetSpec(users, socket, name);
    assert r == users + [(socket, name)];
    var j :| 0 <= j < |users| && Values(users)[j] == name;
    EarliestWins(r, j, |users|);
  }

  /**
   * When the recipient of a name disconnects, the messages for that name pass
   * to the next entry holding it: the one inserted after it with no holder in
   * between, whether that entry came from a newcomer or not.
   */
  lemma NextHolderInherits(users: seq<(SocketId, Username)>, name: Username, i: int, j: int)
    requires DistinctKeys(users) && EarliestWith(users, name, i)
    requires i < j < |users| && users[j].1 == name
    requires forall k :: i < k < j ==> users[k].1 != name
    ensures FirstKeyOf(users, name) == Some(users[i].0)
    ensures FirstKeyOf(Delete(users, users[i].0), name) == Some(users[j].0)
  {
    EarliestIsFirstKey(users, name, i);
    KeyIndex(users, i);
    var d := Delete(users, users[i].0);
    DeleteShifts(users, users[i].0, i);
    assert d[j - 1] == users[j];
    forall k | 0 <= k < j - 1
      ensures d[k].1 != name
    {
      if k < i {
        assert d[k] == users[k];
      } else {
        assert d[k] == users[k + 1];
      }
    }
    EarliestIsFirstKey(d, name, j - 1);
  }

  /**
   * Presence after register then disconnect: the name is listed after
   * registering, and after the same socket disconnects it is still listed
   * exactly when another socket holds it.
   */
  lemma RegisterThenDisconnect(users: seq<(SocketId, Username)>, socket: SocketId, name: Username)
    requires DistinctKeys(users)
    ensures name in Values(Set(users, socket, name))
    ensures name in Values(Delete(Set(users, socket, name), socket))
        <==> exists j :: 0 <= j < |users| && users[j].0 != socket && users[j].1 == name
  {
    var r := Set(users, socket, name);
    SetSpec(users, socket, name);
    assert |r| == |Keys(r)|;
    var k :| 0 <= k < |r| && r[k] == (socket, name);
    assert Values(r)[k] == name;
    ValueAfterDelete(r, socket, name);
    forall j | 0 <= j < |r| && r[j].0 != socket
      ensures j < |users| && users[j] == r[j]
    {
      assert Keys(r)[j] == r[j].0;
      if j < |users| {
        assert Keys(users)[j] == users[j].0;
      }
    }
    if exists j :: 0 <= j < |users| && users[j].0 != socket && users[j].1 == name {
      var j :| 0 <= j < |users| && users[j].0 != socket && users[j].1 == name;
      assert r[j] == users[j];
    }
  }

  /** The registry states of the walk-through below: two registrations, then one removal. */
  lemma WalkThroughTables(a: (SocketId, Username), b: (SocketId, Username))
    requires a.0 != b.0
    ensures Set([], a.0, a.1) == [a] && Values([a]) == [a.1]
    ensures Set([a], b.0, b.1) == [a, b] && Values([a, b]) == [a.1, b.1]
    ensures Delete([a, b], b.0) == [a]
  {
    assert Set([], a.0, a.1) == [a] by {
      var one := Set([], a.0, a.1);
      assert |Keys(one)| == 1 && a in one;
    }
    assert Set([a], b.0, b.1) == [a, b] by {
      assert Keys([a]) == [a.0];
      var two := Set([a], b.0, b.1);
      assert Keys(two) == [a.0, b.0] && b in two;
      assert two[0] == a;
    }
    assert Delete([a, b], b.0) == [a] by {
      assert Keys([a, b]) == [a.0, b.0];
      FirstIndexAt(Keys([a, b]), b.0, 1);
    }
  }

  /** The deliveries of the walk-through below: a message that reaches `b`, then one that does not. */
  lemma WalkThroughRoutes(
    a: (SocketId, Username), b: (SocketId, Username),
    first: string, second: string, t1: string, t2: string, t3: string, t4: string
  )
    requires a.1 != b.1
    ensures Route([a, b], a.0, a.1, b.1, first, t1, t2)
         == [ Emit(Socket(b.0), ReceiveMessage(Payload(a.1, b.1, first, t1))),
              Emit(Socket(a.0), MessageSent(Payload(a.1, b.1, first, t2))) ]
    ensures Route([a], a.0, a.1, b.1, second, t3, t4) == [Emit(Socket(a.0), Error(NotOnline(b.1)))]
  {
    assert Values([a, b]) == [a.1, b.1];
    assert EarliestWith([a, b], b.1, 1);
    EarliestIsFirstKey([a, b], b.1, 1);
    assert Values([a]) == [a.1];
  }

  /**
   * The walk-through of the relay, one result per handler call: socket
   * `alice` registers, then socket `bob`; alice messages bob; bob leaves;
   * alice's second message to bob fails because bob is not online.
   */
  method Scenario(
    alice: SocketId, bob: SocketId, aliceName: Username, bobName: Username,
    first: string, second: string, t1: string, t2: string, t3: string, t4: string
  ) returns (e1: seq<Emit>, e2: seq<Emit>, e3: seq<Emit>, e4: seq<Emit>, e5: seq<Emit>)
    requires alice != bob && aliceName != bobName
    ensures e1 == [Emit(Everyone, UserList([aliceName]))]
    ensures e2 == [Emit(Everyone, UserList([aliceName, bobName]))]
    ensures e3 == [ Emit(Socket(bob), ReceiveMessage(Payload(aliceName, bobName, first, t1))),
                    Emit(Socket(alice), MessageSent(Payload(aliceName, bobName, first, t2))) ]
    ensures e4 == [Emit(Everyone, UserList([aliceName]))]
    ensures e5 == [Emit(Socket(alice), Error(NotOnline(bobName)))]
  {
    var server := new Server();
    var a := (alice, aliceName);
    var b := (bob, bobName);
    e1 := server.Register(alice, aliceName);
    assert server.users == [a] by {
      WalkThroughTables(a, b);
    }
    e2 := server.Register(bob, bobName);
    assert server.users == [a, b] by {
      WalkThroughTables(a, b);
    }
    e3 := server.SendMessage(alice, aliceName, bobName, first, t1, t2);
    e4 := server.Disconnect(bob);
    assert server.users == [a] by {
      WalkThroughTables(a, b);
    }
    e5 := server.SendMessage(alice, aliceName, bobName, second, t3, t4);
    WalkThroughTables(a, b);
    WalkThroughRoutes(a, b, first, second, t1, t2, t3, t4);
  }
}
