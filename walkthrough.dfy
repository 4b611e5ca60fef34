/** A client of `ChatServer` that replays one room's life (alice joins
    room "5", a second alice is refused, alice speaks, alice's socket
    closes twice, a socket that never joined closes) and checks, from the
    handlers' contracts alone, what each step emits and acknowledges. */
module Walkthrough {
  import opened Wrappers
  import opened ChatterStore
  import opened Session

  const Alice := Chatter(0, "alice", "5", ONLINE, "c1")

  /** alice joins an empty room: a welcome to her socket, a notice to the
      others, and a roster holding only her. */
  method AliceJoins() returns (server: ChatServer)
    ensures server.Valid() && server.roster == [Alice]
  {
    server := new ChatServer();
    assert !SeatTaken([], "alice", "5");
    var acks := server.Join("alice", "5", "c1", true);
    assert acks == [None];
    assert server.roster == [Alice];
    assert GetUsersInRoom([Alice], "5") == [Alice];
    assert server.outbox == [
      Emit(ToSocket("c1"), "welcome", Welcome(BOT, WelcomeText("alice", "5"), Alice)),
      Emit(ToRoomExceptSender("5", "c1"), "message", Message(BOT, JoinedText("alice"))),
      Emit(ToRoom(Some("5")), "roomInfo", RoomInfo(Some("5"), [Alice]))];
  }

  /** A second alice in room "5" is refused and nobody hears about it. */
  method TwinRefused(server: ChatServer)
    requires server.Valid() && server.roster == [Alice]
    modifies server
  {
    ghost var before := server.outbox;
    assert Alice in server.roster;
    var acks := server.Join("alice", "5", "c2", true);
    assert acks == [Some(AlreadyExists("alice", "5")), None];
    assert server.roster == [Alice] && server.outbox == before;
  }

  /** alice's text reaches room "5"; an identifier nobody holds is refused. */
  method AliceSpeaks(server: ChatServer)
    requires server.Valid() && server.roster == [Alice]
    modifies server
  {
    ghost var before := server.outbox;
    var acks := server.SendMessage(0, "hi");
    assert acks == [None];
    assert server.outbox == before + [Emit(ToRoom(Some("5")), "message", Message("alice", "hi"))];

    acks := server.SendMessage(7, "hi");
    assert acks == [Some(UNKNOWN_SENDER), None];
    assert server.outbox == before + [Emit(ToRoom(Some("5")), "message", Message("alice", "hi"))];
  }

  /** alice's socket closes: a departure notice, then an empty roster sent
      to an undefined room. Closing it again, or closing a socket that never
      joined, has no effect. */
  method AliceLeaves(server: ChatServer)
    requires server.Valid() && server.roster == [Alice]
    modifies server
  {
    ghost var before := server.outbox;
    assert Find([Alice], BoundTo("c1")) == [Alice];
    server.Disconnect("c1");
    assert server.roster == [];
    assert server.outbox == before + [
      Emit(ToRoom(Some("5")), "message", Message("alice", LeftText("alice"))),
      Emit(ToRoom(None), "roomInfo", RoomInfo(None, []))];

    ghost var after := server.outbox;
    server.Disconnect("c1");
    server.Disconnect("c3");
    assert server.roster == [] && server.outbox == after;
  }
}
