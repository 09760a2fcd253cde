/**
 * The chat server's connection registry: one map from socket id to the
 * username the socket joined with, changed by the `join`, `message` and
 * `disconnect` socket handlers.  Every handler answers with the events it
 * broadcasts to all connected clients (`io.emit`); delivery itself is not
 * modelled, only the list of events in emission order.
 */
module Server {
  import opened Wrappers

  /** The transport's opaque connection id (`socket.id`). */
  type SocketId = string

  /** The chat payload a client sends; the server relays it without looking inside. */
  type Payload = string

  const JoinedSuffix := " has joined the chat"
  const LeftSuffix := " has left the chat"

  /** Events the server broadcasts to every client. */
  datatype Event =
    | UserJoined(username: string, message: string)
      /** `sender` goes out as the payload's `username`; it is absent when the socket never joined. */
    | Message(sender: Option<string>, message: Payload, timestamp: string)
    | UserLeft(username: string, message: string)

  /** Events a socket sends to the server; `Send` is the `message` event. */
  datatype Inbound =
    | Join(socket: SocketId, username: string)
    | Send(socket: SocketId, payload: Payload, timestamp: string)
    | Disconnect(socket: SocketId)

  /** The registry after a handler, and the events the handler emitted. */
  datatype Step = Step(users: map<SocketId, string>, events: seq<Event>)

  /** JavaScript truthiness of a string: only the empty string is falsy. */
  predicate Truthy(name: string) {
    name != ""
  }

  /** `users.get(socket)`: the bound name, or `undefined`. */
  function Lookup(users: map<SocketId, string>, socket: SocketId): Option<string> {
    if socket in users then Some(users[socket]) else None
  }

  /** The `join` handler: bind (or rebind) the socket and announce the name. */
  function JoinStep(users: map<SocketId, string>, socket: SocketId, username: string): (r: Step)
    ensures socket in r.users && r.users[socket] == username
    ensures r.users.Keys == users.Keys + {socket}
    ensures forall t :: t in users && t != socket ==> r.users[t] == users[t]
    ensures r.events == [UserJoined(username, username + JoinedSuffix)]
  {
    Step(users[socket := username], [UserJoined(username, username + JoinedSuffix)])
  }

  /** The `message` handler: stamp the sender's bound name on the payload. */
  function MessageStep(users: map<SocketId, string>, socket: SocketId, payload: Payload, timestamp: string): (r: Step)
    ensures r.users == users
    ensures |r.events| == 1 && r.events[0].Message?
    ensures r.events[0].sender.Some? <==> socket in users
    ensures socket in users ==> r.events[0].sender.value == users[socket]
    ensures r.events[0].message == payload && r.events[0].timestamp == timestamp
  {
    Step(users, [Message(Lookup(users, socket), payload, timestamp)])
  }

  /**
   * The `disconnect` handler: only a truthy bound name is removed and
   * announced; an unbound socket, or one bound to "", changes nothing.
   */
  function DisconnectStep(users: map<SocketId, string>, socket: SocketId): (r: Step)
    ensures socket in r.users <==> socket in users && !Truthy(users[socket])
    ensures forall t :: t != socket ==> (t in r.users <==> t in users)
    ensures forall t :: t in r.users ==> t in users && r.users[t] == users[t]
    ensures |r.events| <= 1
    ensures r.events != [] <==> socket in users && Truthy(users[socket])
    ensures r.events != [] ==> r.events[0] == UserLeft(users[socket], users[socket] + LeftSuffix)
  {
    var username := Lookup(users, socket);
    if username.Some? && Truthy(username.value) then
      Step(users - {socket}, [UserLeft(username.value, username.value + LeftSuffix)])
    else
      Step(users, [])
  }

  /** Dispatch one inbound event to its handler. */
  function Handle(users: map<SocketId, string>, e: Inbound): Step {
    match e
    case Join(socket, username) => JoinStep(users, socket, username)
    case Send(socket, payload, timestamp) => MessageStep(users, socket, payload, timestamp)
    case Disconnect(socket) => DisconnectStep(users, socket)
  }

  /** Handle the events of a trace one after another, collecting what is emitted. */
  function Run(users: map<SocketId, string>, trace: seq<Inbound>): Step
    decreases |trace|
  {
    if trace == [] then Step(users, [])
    else
      var before := Run(users, trace[..|trace| - 1]);
      var last := Handle(before.users, trace[|trace| - 1]);
      Step(last.users, before.events + last.events)
  }

  /** The connection registry (`const users = new Map()`) and its three socket handlers. */
  class Registry {
    var users: map<SocketId, string>

    constructor()
      ensures users == map[]
    {
      users := map[];
    }

    method OnJoin(socket: SocketId, username: string) returns (events: seq<Event>)
      modifies this
      ensures Step(users, events) == JoinStep(old(users), socket, username)
    {
      users := users[socket := username];
      events := [UserJoined(username, username + JoinedSuffix)];
    }

    method OnMessage(socket: SocketId, payload: Payload, timestamp: string) returns (events: seq<Event>)
      ensures Step(users, events) == MessageStep(users, socket, payload, timestamp)
    {
      var username := Lookup(users, socket);
      events := [Message(username, payload, timestamp)];
    }

    method OnDisconnect(socket: SocketId) returns (events: seq<Event>)
      modifies this
      ensures Step(users, events) == DisconnectStep(old(users), socket)
    {
      var username := Lookup(users, socket);
      events := [];
      if username.Some? && Truthy(username.value) {
        users := users - {socket};
        events := [UserLeft(username.value, username.value + LeftSuffix)];
      }
    }
  }

  // ---------------------------------------------------------------------
  // Properties of the handlers and of whole event traces

  /** Nothing stops two sockets from joining under the same name. */
  lemma SameNameOnTwoSockets(users: map<SocketId, string>, s1: SocketId, s2: SocketId, username: string)
    requires s1 != s2
    ensures var r := JoinStep(JoinStep(users, s1, username).users, s2, username).users;
      s1 in r && s2 in r && r[s1] == username && r[s2] == username
  {
  }

  /** After a disconnect the same socket's second disconnect is a no-op. */
  lemma DisconnectTwiceIsNoop(users: map<SocketId, string>, socket: SocketId)
    ensures var once := DisconnectStep(users, socket).users;
      DisconnectStep(once, socket) == Step(once, [])
  {
  }

  /** A socket that joined with "" stays in the registry after it disconnects. */
  lemma EmptyNameSurvivesDisconnect(users: map<SocketId, string>, socket: SocketId)
    ensures var r := DisconnectStep(JoinStep(users, socket, "").users, socket);
      socket in r.users && r.users[socket] == "" && r.events == []
  {
  }

  /** A trace that never re-joins a socket bound to "" leaves that binding in place. */
  lemma {:induction false} EmptyNameNeverRemoved(users: map<SocketId, string>, trace: seq<Inbound>, socket: SocketId)
    requires socket in users && users[socket] == ""
    requires forall i :: 0 <= i < |trace| && trace[i].Join? ==> trace[i].socket != socket
    ensures socket in Run(users, trace).users && Run(users, trace).users[socket] == ""
    decreases |trace|
  {
    if trace != [] {
      EmptyNameNeverRemoved(users, trace[..|trace| - 1], socket);
    }
  }

  /** The usernames announced by the `userJoined` events of a log. */
  function JoinedNames(events: seq<Event>): set<string> {
    set i | 0 <= i < |events| && events[i].UserJoined? :: events[i].username
  }

  /** Number of `userJoined` events in a log. */
  function CountJoined(events: seq<Event>): nat
    decreases |events|
  {
    if events == [] then 0
    else CountJoined(events[..|events| - 1]) + (if events[|events| - 1].UserJoined? then 1 else 0)
  }

  /** Number of `userLeft` events in a log. */
  function CountLeft(events: seq<Event>): nat
    decreases |events|
  {
    if events == [] then 0
    else CountLeft(events[..|events| - 1]) + (if events[|events| - 1].UserLeft? then 1 else 0)
  }

  /** Every name bound in the registry was announced by a `userJoined` in the log. */
  ghost predicate BoundNamesAnnounced(r: Step) {
    forall s :: s in r.users ==> r.users[s] in JoinedNames(r.events)
  }

  /** Every `userLeft` in the log names a user an earlier `userJoined` announced. */
  ghost predicate DeparturesAnnounced(events: seq<Event>) {
    forall i :: 0 <= i < |events| && events[i].UserLeft? ==> events[i].username in JoinedNames(events[..i])
  }

  /** Starting from an empty registry, every bound name was announced when it joined. */
  lemma {:induction false} BoundNamesWereAnnounced(trace: seq<Inbound>)
    ensures BoundNamesAnnounced(Run(map[], trace))
    decreases |trace|
  {
    if trace != [] {
      var before := Run(map[], trace[..|trace| - 1]);
      var last := Handle(before.users, trace[|trace| - 1]);
      BoundNamesWereAnnounced(trace[..|trace| - 1]);
      var r := Run(map[], trace);
      assert r.events == before.events + last.events;
      forall s | s in r.users
        ensures r.users[s] in JoinedNames(r.events)
      {
        if trace[|trace| - 1].Join? && s == trace[|trace| - 1].socket {
          assert r.events[|before.events|] == last.events[0];
        } else {
          assert s in before.users && r.users[s] == before.users[s];
          assert before.users[s] in JoinedNames(before.events);
          var i :| 0 <= i < |before.events| && before.events[i].UserJoined? && before.events[i].username == r.users[s];
          assert r.events[i] == before.events[i];
        }
      }
    }
  }

  /**
   * Starting from an empty registry, every `userLeft` event names a user
   * that an earlier `userJoined` event announced.
   */
  lemma {:induction false} DeparturesFollowArrivals(trace: seq<Inbound>)
    ensures DeparturesAnnounced(Run(map[], trace).events)
    decreases |trace|
  {
    if trace != [] {
      var before := Run(map[], trace[..|trace| - 1]);
      var last := Handle(before.users, trace[|trace| - 1]);
      DeparturesFollowArrivals(trace[..|trace| - 1]);
      BoundNamesWereAnnounced(trace[..|trace| - 1]);
      var events := Run(map[], trace).events;
      assert events == before.events + last.events;
      forall i | 0 <= i < |events| && events[i].UserLeft?
        ensures events[i].username in JoinedNames(events[..i])
      {
        if i < |before.events| {
          assert events[i] == before.events[i] && events[..i] == before.events[..i];
          assert before.events[i].username in JoinedNames(before.events[..i]);
        } else {
          var socket := trace[|trace| - 1].socket;
          assert trace[|trace| - 1].Disconnect? && i == |before.events|;
          assert events[..i] == before.events;
          assert socket in before.users && events[i].username == before.users[socket];
          assert before.users[socket] in JoinedNames(before.events);
        }
      }
    }
  }

  /**
   * Starting from an empty registry, the bound sockets plus the departures
   * announced never exceed the arrivals announced: no more `userLeft` than
   * `userJoined` events are ever sent.
   */
  lemma {:induction false} DeparturesNeverOutnumberArrivals(trace: seq<Inbound>)
    ensures |Run(map[], trace).users| + CountLeft(Run(map[], trace).events) <= CountJoined(Run(map[], trace).events)
    decreases |trace|
  {
    if trace != [] {
      var before := Run(map[], trace[..|trace| - 1]);
      var e := trace[|trace| - 1];
      var last := Handle(before.users, e);
      DeparturesNeverOutnumberArrivals(trace[..|trace| - 1]);
      var events := before.events + last.events;
      if last.events == [] {
        assert events == before.events;
      } else {
        assert events[..|events| - 1] == before.events;
      }
      match e
      case Join(socket, username) =>
        assert |last.users| <= |before.users| + 1;
      case Send(_, _, _) =>
      case Disconnect(socket) =>
        if last.events != [] {
          assert last.users == before.users - {socket};
          assert |last.users| == |before.users| - 1;
        }
    }
  }
}
