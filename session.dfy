/** The chat-room session protocol run for every connected socket: the
    `join`, `sendMessage` and `disconnect` handlers, the store helpers they
    call, and the events and acknowledgements they produce. Each handler is
    modelled as one atomic step of a `ChatServer` that owns the roster and
    an append-only outbox of emitted events. */
module Session {
  import opened Wrappers
  import opened ChatterStore

  /** The status every record is created with. */
  const ONLINE := "ONLINE"
  /** The sender name of system notices. */
  const BOT := "bot"

  const COULD_NOT_CREATE := "user could not be created. Try again!"
  const UNKNOWN_SENDER := "User doesn't exist in the database. Rejoin the chat"

  /** The acknowledgement sent back when the username is taken in the room. */
  function AlreadyExists(username: string, room: string): string {
    "User " + username + " already exists in room no" + room + ". Please select a different name or room"
  }

  /** The text of the private greeting to a socket that has joined. */
  function WelcomeText(username: string, room: string): string {
    username + ", Welcome to room " + room + "."
  }

  /** The text of the notice that someone has joined. */
  function JoinedText(username: string): string {
    username + " has joined"
  }

  /** The text of the notice that someone has left. */
  function LeftText(username: string): string {
    "User " + username + " has left the chat."
  }

  /** Who an emitted event is addressed to. */
  datatype Target =
    | ToSocket(socketId: string)                           // the calling socket only
    | ToRoomExceptSender(room: string, sender: string)     // the room, the sender excluded
    | ToRoom(roomName: Option<string>)                     // the whole room; None is `undefined`

  datatype Payload =
    | Welcome(user: string, text: string, userData: Chatter)
    | Message(user: string, text: string)
    | RoomInfo(room: Option<string>, users: seq<Chatter>)  // room None is `undefined`

  datatype Event = Emit(target: Target, name: string, payload: Payload)

  /** One call of the acknowledgement callback: with an error string, or
      with no argument. */
  type Ack = Option<string>

  /** `checkUserExistsInRoom`: the records holding a username in a room. */
  function CheckUserExistsInRoom(roster: seq<Chatter>, username: string, room: string): (r: seq<Chatter>)
    ensures forall c :: c in r <==> c in roster && c.username == username && c.room == room
    ensures r == [] <==> forall c :: c in roster ==> Seat(c) != (username, room)
  {
    FindEmpty(roster, NameInRoom(username, room));
    Find(roster, NameInRoom(username, room))
  }

  /** `checkUserExists`: the record with a given store identifier, if any. */
  function CheckUserExists(roster: seq<Chatter>, id: nat): (r: Option<Chatter>)
    ensures r.None? <==> forall c :: c in roster ==> c.id != id
    ensures r.Some? ==> r.value in roster && r.value.id == id
  {
    FindOne(roster, IdIs(id))
  }

  /** `getUsersInRoom`: the records of a room, in roster order. */
  function GetUsersInRoom(roster: seq<Chatter>, room: string): (r: seq<Chatter>)
    ensures forall c :: c in r <==> c in roster && c.room == room
  {
    Find(roster, InRoom(room))
  }

  /** Some record already holds this username in this room. */
  ghost predicate SeatTaken(roster: seq<Chatter>, username: string, room: string) {
    exists c :: c in roster && c.username == username && c.room == room
  }

  /** Some record is bound to this socket. */
  ghost predicate HasRecord(roster: seq<Chatter>, socketId: string) {
    exists c :: c in roster && c.socketId == socketId
  }

  /** What the join protocol keeps true of the store between handler calls:
      usernames are unique within a room, store identifiers are unique and
      below the next one to be issued, and every record is ONLINE. */
  ghost predicate WellFormed(roster: seq<Chatter>, nextId: nat) {
    && UniqueBy(roster, Seat)
    && UniqueBy(roster, IdOf)
    && (forall c :: c in roster ==> c.id < nextId && c.status == ONLINE)
  }

  /** A record appended by a successful join keeps the store well formed. */
  lemma JoinKeepsWellFormed(roster: seq<Chatter>, nextId: nat, user: Chatter)
    requires WellFormed(roster, nextId)
    requires !SeatTaken(roster, user.username, user.room)
    requires user.id == nextId && user.status == ONLINE
    ensures WellFormed(roster + [user], nextId + 1)
  {
    AppendUniqueBy(roster, user, Seat);
    AppendUniqueBy(roster, user, IdOf);
  }

  /** A delete keeps the store well formed. */
  lemma LeaveKeepsWellFormed(roster: seq<Chatter>, nextId: nat, f: Filter)
    requires WellFormed(roster, nextId)
    ensures WellFormed(Remove(roster, f), nextId)
  {
    RemoveKeepsUniqueBy(roster, f, Seat);
    RemoveKeepsUniqueBy(roster, f, IdOf);
  }

  /** A socket that held no record before it joined leaves the roster as it
      found it when it disconnects. */
  lemma JoinThenLeave(roster: seq<Chatter>, user: Chatter)
    requires !HasRecord(roster, user.socketId)
    ensures Remove(roster + [user], BoundTo(user.socketId)) == roster
  {
    RemoveAppend(roster, user, BoundTo(user.socketId));
    FindEmpty(roster, BoundTo(user.socketId));
    RemoveUnmatched(roster, BoundTo(user.socketId));
  }

  class ChatServer {
    /** The chatter records held by the store. */
    var roster: seq<Chatter>
    /** The identifier the store gives the next record it creates. */
    var nextId: nat
    /** Every event emitted so far, oldest first. */
    var outbox: seq<Event>

    ghost predicate Valid()
      reads this
    {
      WellFormed(roster, nextId)
    }

    constructor ()
      ensures Valid()
      ensures roster == [] && nextId == 0 && outbox == []
    {
      roster, nextId, outbox := [], 0, [];
    }

    /** `createUser`: the store either creates the record under a fresh
        identifier and returns it, or returns nothing (`storeCreates`
        stands for its answer). */
    method CreateUser(username: string, room: string, status: string, socketId: string, storeCreates: bool)
      returns (user: Option<Chatter>)
      modifies this`roster, this`nextId
      ensures storeCreates ==>
                && user == Some(Chatter(old(nextId), username, room, status, socketId))
                && roster == old(roster) + [user.value]
                && nextId == old(nextId) + 1
      ensures !storeCreates ==> user == None && roster == old(roster) && nextId == old(nextId)
    {
      if storeCreates {
        var c := Chatter(nextId, username, room, status, socketId);
        roster := roster + [c];
        nextId := nextId + 1;
        user := Some(c);
      } else {
        user := None;
      }
    }

    /** `deleteUserFromRoom`: removes every record bound to the socket and
        returns the removed records. */
    method DeleteUserFromRoom(socketId: string) returns (deleted: seq<Chatter>)
      modifies this`roster
      ensures forall c :: c in deleted <==> c in old(roster) && c.socketId == socketId
      ensures forall c :: c in roster <==> c in old(roster) && c.socketId != socketId
      ensures multiset(deleted) + multiset(roster) == multiset(old(roster))
      ensures deleted == Find(old(roster), BoundTo(socketId))
      ensures roster == Remove(old(roster), BoundTo(socketId))
    {
      deleted := Find(roster, BoundTo(socketId));
      FindRemovePartition(roster, BoundTo(socketId));
      roster := Remove(roster, BoundTo(socketId));
    }

    /** The `join` handler. A taken username is refused with an error
        acknowledgement; otherwise the record is created and three events
        follow in a fixed order: the welcome to the caller, the "has joined"
        notice to the rest of the room, then the room's roster as it is after
        the create. The callback is called once more with no argument at the
        end, after an error too. */
    method Join(username: string, room: string, socketId: string, storeCreates: bool)
      returns (acks: seq<Ack>)
      requires Valid()
      modifies this`roster, this`nextId, this`outbox
      ensures Valid()
      ensures SeatTaken(old(roster), username, room) ==>
                && roster == old(roster) && nextId == old(nextId) && outbox == old(outbox)
                && acks == [Some(AlreadyExists(username, room)), None]
      ensures !SeatTaken(old(roster), username, room) && !storeCreates ==>
                && roster == old(roster) && nextId == old(nextId) && outbox == old(outbox)
                && acks == [Some(COULD_NOT_CREATE), None]
      ensures !SeatTaken(old(roster), username, room) && storeCreates ==>
                var user := Chatter(old(nextId), username, room, ONLINE, socketId);
                && roster == old(roster) + [user]
                && nextId == old(nextId) + 1
                && GetUsersInRoom(roster, room) == GetUsersInRoom(old(roster), room) + [user]
                && outbox == old(outbox) + [
                     Emit(ToSocket(socketId), "welcome",
                          Welcome(BOT, WelcomeText(username, room), user)),
                     Emit(ToRoomExceptSender(room, socketId), "message",
                          Message(BOT, JoinedText(username))),
                     Emit(ToRoom(Some(room)), "roomInfo",
                          RoomInfo(Some(room), GetUsersInRoom(roster, room)))]
                && acks == [None]
    {
      acks := [];
      var userExists := CheckUserExistsInRoom(roster, username, room);
      if |userExists| > 0 {
        assert userExists[0] in userExists;
        acks := acks + [Some(AlreadyExists(username, room))];
      } else {
        ghost var before, id := roster, nextId;
        var user := CreateUser(username, room, ONLINE, socketId, storeCreates);
        if user.Some? {
          var u := user.value;
          JoinKeepsWellFormed(before, id, u);
          FindAppend(before, u, InRoom(room));
          outbox := outbox + [Emit(ToSocket(socketId), "welcome",
                                   Welcome(BOT, WelcomeText(u.username, u.room), u))];
          outbox := outbox + [Emit(ToRoomExceptSender(u.room, socketId), "message",
                                   Message(BOT, JoinedText(u.username)))];
          outbox := outbox + [Emit(ToRoom(Some(u.room)), "roomInfo",
                                   RoomInfo(Some(u.room), GetUsersInRoom(roster, u.room)))];
        } else {
          acks := acks + [Some(COULD_NOT_CREATE)];
        }
      }
      acks := acks + [None];
    }

    /** The `sendMessage` handler. The sender is looked up by store
        identifier; a known sender's text goes to the whole of that sender's
        room, an unknown one gets an error acknowledgement and nothing is
        emitted. The callback is called once more with no argument at the
        end. The roster is never touched. */
    method SendMessage(userId: nat, message: string) returns (acks: seq<Ack>)
      requires Valid()
      modifies this`outbox
      ensures Valid()
      ensures forall c :: c in roster && c.id == userId ==>
                && outbox == old(outbox) + [Emit(ToRoom(Some(c.room)), "message", Message(c.username, message))]
                && acks == [None]
      ensures (forall c :: c in roster ==> c.id != userId) ==>
                outbox == old(outbox) && acks == [Some(UNKNOWN_SENDER), None]
    {
      acks := [];
      var user := CheckUserExists(roster, userId);
      if user.Some? {
        var u := user.value;
        forall c | c in roster && c.id == userId
          ensures c == u
        {
          FindOneById(roster, c);
        }
        outbox := outbox + [Emit(ToRoom(Some(u.room)), "message", Message(u.username, message))];
      } else {
        acks := acks + [Some(UNKNOWN_SENDER)];
      }
      acks := acks + [None];
    }

    /** The `disconnect` handler. Every record bound to the socket is
        deleted. When there was none, nothing is emitted, so disconnecting a
        second time does nothing. Otherwise the first deleted record's
        departure is announced to its room, then a `roomInfo` lists that
        room as it is after the delete; as written, that event's target room
        and its `room` field are read from the array of deleted records and
        are therefore `undefined`. */
    method Disconnect(socketId: string)
      requires Valid()
      modifies this`roster, this`outbox
      ensures Valid()
      ensures forall c :: c in roster <==> c in old(roster) && c.socketId != socketId
      ensures roster == Remove(old(roster), BoundTo(socketId))
      ensures !HasRecord(old(roster), socketId) ==> roster == old(roster) && outbox == old(outbox)
      ensures HasRecord(old(roster), socketId) ==>
                var gone := Find(old(roster), BoundTo(socketId))[0];
                && gone in old(roster) && gone.socketId == socketId
                && (forall c :: c in GetUsersInRoom(roster, gone.room) <==>
                      c in old(roster) && c.room == gone.room && c.socketId != socketId)
                && outbox == old(outbox) + [
                     Emit(ToRoom(Some(gone.room)), "message",
                          Message(gone.username, LeftText(gone.username))),
                     Emit(ToRoom(None), "roomInfo",
                          RoomInfo(None, GetUsersInRoom(roster, gone.room)))]
    {
      ghost var before := roster;
      var user := DeleteUserFromRoom(socketId);
      LeaveKeepsWellFormed(before, nextId, BoundTo(socketId));
      FindEmpty(before, BoundTo(socketId));
      if |user| > 0 {
        assert user[0] in user;
        outbox := outbox + [Emit(ToRoom(Some(user[0].room)), "message",
                                 Message(user[0].username, LeftText(user[0].username)))];
        outbox := outbox + [Emit(ToRoom(None), "roomInfo",
                                 RoomInfo(None, GetUsersInRoom(roster, user[0].room)))];
      } else {
        RemoveUnmatched(before, BoundTo(socketId));
      }
    }
  }
}
