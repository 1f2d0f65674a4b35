/**
 The requests of Client/Client.c: fill and pack a request, send it, and read the outcome off the reply. The server's
 application stands at the other end of the connection; either host may have either byte order.
 */
module Client {
  import opened Options
  import opened Wire
  import opened Protocol
  import opened ChatState
  import opened ServerApp
  import opened Sequences
  import opened Application
  import DataBase

  const BUFF_SIZE: nat := 4093

  datatype ClientErr =
    | ClientSuccess
    | ClientFail
    | ClientWrongPsw
    | ClientUserNameNotExist
    | ClientAllreadyConnected
    | ClientFailGroupCreate

  lemma UserRequestReadAs(raw: seq<byte>, t: byte, name: string, password: string)
    requires |raw| == USER_SIZE && WireText(name) && WireText(password) && (t == REGISTER_REQ || t == LOGIN_REQ)
    ensures ReadAs(UserRequest(raw, t, Bytes(name), Bytes(password)),
                   if t == REGISTER_REQ then Register(name, password) else Login(name, password))
  {
    forall b: seq<byte> | |b| >= GROUP_SIZE && Carries(b, UserRequest(raw, t, Bytes(name), Bytes(password)))
      ensures RequestOf(b) == Some(if t == REGISTER_REQ then Register(name, password) else Login(name, password))
    {
      UserRequestReads(raw, t, Bytes(name), Bytes(password), b);
    }
  }

  lemma GroupRequestReadAs(raw: seq<byte>, t: byte, group: string, user: string, host: Endian)
    requires |raw| == GROUP_SIZE && WireText(group) && WireText(user)
    requires t == CREATE_GROUP_CONVERSATION_REQ || t == JOIN_CONVERSATION_REQ
    ensures ReadAs(Packed(t, GroupStruct(raw, Bytes(group), Bytes(user)), host),
                   if t == CREATE_GROUP_CONVERSATION_REQ then Create(group, user) else Join(group, user))
  {
    forall b: seq<byte> | |b| >= GROUP_SIZE && Carries(b, Packed(t, GroupStruct(raw, Bytes(group), Bytes(user)), host))
      ensures RequestOf(b) ==
              Some(if t == CREATE_GROUP_CONVERSATION_REQ then Create(group, user) else Join(group, user))
    {
      GroupRequestReads(raw, t, Bytes(group), Bytes(user), host, b);
    }
  }

  /**
   The server takes the message for a request to leave for that request exactly under the condition that spares the
   group's name: the user's name always arrives.
   */
  lemma LeaveRequestReadAsIff(raw: seq<byte>, group: string, user: string, host: Endian)
    requires |raw| == GROUP_SIZE && WireText(group) && WireText(user)
    ensures var b := GroupStruct(raw, Bytes(group), Bytes(user));
            ReadAs(Packed(LEAVE_CONVERSATION_REQ, b, host), Leave(group, user)) <==>
            host == Big || |group| <= 2 || (b[4] == b[7] && (|group| == 3 || b[5] == b[6]))
  {
    hide GroupStruct, Packed, RequestOf;
    var b := GroupStruct(raw, Bytes(group), Bytes(user));
    var packed := Packed(LEAVE_CONVERSATION_REQ, b, host);
    forall buffer: seq<byte> | |buffer| >= GROUP_SIZE && Carries(buffer, packed)
      ensures RequestOf(buffer) == Some(Leave(group, user)) <==>
              host == Big || |group| <= 2 || (b[4] == b[7] && (|group| == 3 || b[5] == b[6]))
    {
      LeaveRequestReadsIff(raw, group, user, host, buffer);
    }
    assert Carries(packed, packed);
  }

  lemma LeaveRequestReadsIff(raw: seq<byte>, group: string, user: string, host: Endian, buffer: seq<byte>)
    requires |raw| == GROUP_SIZE && WireText(group) && WireText(user) && |buffer| >= GROUP_SIZE
    requires Carries(buffer, Packed(LEAVE_CONVERSATION_REQ, GroupStruct(raw, Bytes(group), Bytes(user)), host))
    ensures var b := GroupStruct(raw, Bytes(group), Bytes(user));
            RequestOf(buffer) == Some(Leave(group, user)) <==>
            host == Big || |group| <= 2 || (b[4] == b[7] && (|group| == 3 || b[5] == b[6]))
  {
    hide StrCpy;
    var b := GroupStruct(raw, Bytes(group), Bytes(user));
    var packed := Packed(LEAVE_CONVERSATION_REQ, b, host);
    GroupStructReads(raw, Bytes(group), Bytes(user));
    LeaveRequestIff(raw, Bytes(group), Bytes(user), host, buffer);
    assert forall i :: 0 <= i < |packed| ==> buffer[i] == packed[i];
    CStringKept(b, buffer, GROUP_USER);
    SameText(CString(buffer, GROUP_NAME), Bytes(group));
  }

  lemma SameText(a: seq<byte>, b: seq<byte>)
    ensures Text(a) == Text(b) <==> a == b
  {
    if Text(a) == Text(b) {
      forall i | 0 <= i < |a|
        ensures a[i] == b[i]
      {
        assert Text(a)[i] as int == Text(b)[i] as int;
      }
    }
  }

  /** The client reads the code and the address the answer says. */
  lemma AnswerReads(answer: seq<byte>, t: byte, code: byte, ip: Option<string>, buffer: seq<byte>, host: Endian)
    requires IsAnswer(t) && Says(answer, t, code, ip) && |buffer| >= GROUP_ANSWER_SIZE && Carries(buffer, answer)
    requires ip.Some? ==> |answer| == GROUP_ANSWER_SIZE && |ip.value| <= 15
    ensures WordAt(Unpacked(buffer, host), PackedField(t), host) == Code(code)
    ensures ip.Some? ==> Text(CString(Unpacked(buffer, host), GROUP_IP)) == ip.value
  {
    assert Packed(t, answer, Big) == answer;
    AnswerRoundTrip(t, answer, buffer, Big, host);
    if ip.Some? {
      CStringKept(answer, Unpacked(buffer, host), GROUP_IP);
    }
  }

  /** The reply to a request tells how the database has served it. */
  ghost predicate Tells(buffer: seq<byte>, req: Request, out: Outcome, host: Endian) {
    && |buffer| == BUFF_SIZE
    && WordAt(buffer, PackedField(AnswerType(req)), host) == Code(AnswerCode(out))
    && (IpOf(out).Some? ==> Text(CString(buffer, GROUP_IP)) == IpOf(out).value)
  }

  method CopyTo(message: array<byte>, buffer: array<byte>)
    requires message.Length <= buffer.Length && message != buffer
    modifies buffer
    ensures Carries(buffer[..], message[..])
  {
    forall i | 0 <= i < message.Length {
      buffer[i] := message[i];
    }
  }

  /** The request reaches the server's buffer and is served there. */
  method SendToServer(request: array<byte>, serverBuffer: array<byte>, db: DataBase.ChatDataBase, server: Endian,
                      ghost req: Request) returns (answer: array<byte>)
    requires request.Length <= serverBuffer.Length == SERVER_BUFF_SIZE && request != serverBuffer
    requires db.Valid() && serverBuffer !in db.Repr && request !in db.Repr && AddressesFit(db.View())
    requires ReadAs(request[..], req)
    modifies serverBuffer, db.Repr
    ensures db.Valid() && fresh(db.Repr - old(db.Repr)) && fresh(answer)
    ensures var (db', out) := Serve(old(db.View()), req);
            db.View() == db' && Says(answer[..], AnswerType(req), AnswerCode(out), IpOf(out))
  {
    hide DataBase.ChatDataBase.Valid, DataBase.ChatDataBase.View;
    ghost var state := db.View();
    CopyTo(request, serverBuffer);
    assert db.Valid() && db.View() == state && RequestOf(serverBuffer[..]) == Some(req);
    answer := GetFromClientAndSendToServer(serverBuffer, db, server);
  }

  /** The answer reaches the client's buffer and is unpacked there. */
  method ReceiveFromServer(answer: array<byte>, ghost req: Request, ghost out: Outcome, host: Endian)
    returns (buffer: array<byte>)
    requires !req.Leave? && Says(answer[..], AnswerType(req), AnswerCode(out), IpOf(out))
    requires IpOf(out).Some? ==> Fits(IpOf(out).value) && answer.Length == GROUP_ANSWER_SIZE
    ensures fresh(buffer) && Tells(buffer[..], req, out, host)
  {
    buffer := new byte[BUFF_SIZE](_ => 0);
    CopyTo(answer, buffer);
    AnswerReads(answer[..], AnswerType(req), AnswerCode(out), IpOf(out), buffer[..], host);
    var t := UnPack(buffer, host);
  }

  /** Sends a request and receives the reply. */
  method Exchange(request: array<byte>, serverBuffer: array<byte>, db: DataBase.ChatDataBase, server: Endian,
                  host: Endian,
                  ghost req: Request) returns (buffer: array<byte>)
    requires request.Length <= serverBuffer.Length == SERVER_BUFF_SIZE && request != serverBuffer
    requires db.Valid() && serverBuffer !in db.Repr && request !in db.Repr && AddressesFit(db.View())
    requires ReadAs(request[..], req) && !req.Leave?
    modifies serverBuffer, db.Repr
    ensures db.Valid() && fresh(db.Repr - old(db.Repr)) && fresh(buffer)
    ensures var (db', out) := Serve(old(db.View()), req); db.View() == db' && Tells(buffer[..], req, out, host)
  {
    hide DataBase.ChatDataBase.Valid, DataBase.ChatDataBase.View;
    ghost var state := db.View();
    ghost var out := Serve(state, req).1;
    AddressesKeepFitting(state, req);
    var answer := SendToServer(request, serverBuffer, db, server, req);
    buffer := ReceiveFromServer(answer, req, out, host);
  }

  /** What a reply tells of a request about a group. */
  lemma GroupTold(buffer: seq<byte>, req: Request, res: DBErr, ip: Option<string>, host: Endian)
    requires (req.Create? || req.Join?) && Tells(buffer, req, Grouped(res, ip), host)
    ensures WordAt(buffer, GROUP_ANSWER, host) == Code(GroupCode(res))
    ensures ip.Some? ==> Text(CString(buffer, GROUP_IP)) == ip.value
  {
  }

  /** Fills and packs a register or login request. */
  method CreateUserDetails(t: byte, userName: string, psw: string, host: Endian) returns (user: array<byte>)
    requires WireText(userName) && WireText(psw) && (t == REGISTER_REQ || t == LOGIN_REQ)
    ensures fresh(user) && user.Length == USER_SIZE
    ensures ReadAs(user[..], if t == REGISTER_REQ then Register(userName, psw) else Login(userName, psw))
  {
    user := new byte[USER_SIZE];
    ghost var raw := user[..];
    PutString(user, USER_NAME, userName);
    PutString(user, USER_PASSWORD, psw);
    Pack(t, user, host);
    assert user[..] == UserRequest(raw, t, Bytes(userName), Bytes(psw));
    UserRequestReadAs(raw, t, userName, psw);
  }

  /** Fills and packs a request to create or join a group. */
  method InitGroupStruct(t: byte, userName: string, groupName: string, host: Endian) returns (group: array<byte>)
    requires WireText(userName) && WireText(groupName)
    requires t == CREATE_GROUP_CONVERSATION_REQ || t == JOIN_CONVERSATION_REQ
    ensures fresh(group) && group.Length == GROUP_SIZE
    ensures ReadAs(group[..], if t == CREATE_GROUP_CONVERSATION_REQ then Create(groupName, userName)
                              else Join(groupName, userName))
  {
    group := new byte[GROUP_SIZE];
    ghost var raw := group[..];
    PutString(group, GROUP_NAME, groupName);
    PutString(group, GROUP_USER, userName);
    Pack(t, group, host);
    assert group[..] == Packed(t, GroupStruct(raw, Bytes(groupName), Bytes(userName)), host);
    GroupRequestReadAs(raw, t, groupName, userName, host);
  }

  /** Registration succeeds for the client exactly if the database has taken the name. */
  method UserRegister(userName: string, psw: string, serverBuffer: array<byte>, db: DataBase.ChatDataBase,
                      server: Endian, host: Endian) returns (res: ClientErr)
    requires WireText(userName) && WireText(psw)
    requires serverBuffer.Length == SERVER_BUFF_SIZE && serverBuffer !in db.Repr
    requires db.Valid() && AddressesFit(db.View())
    modifies serverBuffer, db.Repr
    ensures db.Valid() && fresh(db.Repr - old(db.Repr))
    ensures var (db', unique) := DoRegister(old(db.View()), userName, psw);
            db.View() == db' && res == if unique then ClientSuccess else ClientFail
  {
    hide DataBase.ChatDataBase.Valid, DataBase.ChatDataBase.View;
    var user := CreateUserDetails(REGISTER_REQ, userName, psw, host);
    var buffer := Exchange(user, serverBuffer, db, server, host, Register(userName, psw));
    var answer := WordAt(buffer[..], ANSWER, host);
    if answer == Code(REGISTER_SUCCESS) {
      return ClientSuccess;
    } else if answer == Code(REGISTER_USER_NAME_ALLREADY_EXIST) {
      return ClientFail;
    }
    return ClientFail;
  }

  /** None stands for -1, which is no constant of the result type. */
  method UserLogIn(userName: string, psw: string, serverBuffer: array<byte>, db: DataBase.ChatDataBase,
                   server: Endian, host: Endian) returns (res: Option<ClientErr>)
    requires WireText(userName) && WireText(psw)
    requires serverBuffer.Length == SERVER_BUFF_SIZE && serverBuffer !in db.Repr
    requires db.Valid() && AddressesFit(db.View())
    modifies serverBuffer, db.Repr
    ensures db.Valid() && fresh(db.Repr - old(db.Repr)) && db.View() == old(db.View())
    ensures var out := DoLogin(old(db.View()), userName, psw);
            && (res == Some(ClientSuccess) <==> out == DBConnectSuccessfully)
            && (res == Some(ClientUserNameNotExist) <==> out == DBWrongUserName)
            && (res == Some(ClientWrongPsw) <==> out == DBWrongPsw)
            && (res == Some(ClientAllreadyConnected) <==> out == DBAlreadyConnected)
  {
    hide DataBase.ChatDataBase.Valid, DataBase.ChatDataBase.View;
    var user := CreateUserDetails(LOGIN_REQ, userName, psw, host);
    var buffer := Exchange(user, serverBuffer, db, server, host, Login(userName, psw));
    var answer := WordAt(buffer[..], ANSWER, host);
    if answer == Code(LOGIN_USER_SUCCESSFULLY_CONNECTED) {
      return Some(ClientSuccess);
    } else if answer == Code(LOGIN_USER_NAME_NOT_EXIST) {
      return Some(ClientUserNameNotExist);
    } else if answer == Code(LOGIN_WRONG_PSW) {
      return Some(ClientWrongPsw);
    } else if answer == Code(LOGIN_ALLREADY_CONNECTED) {
      return Some(ClientAllreadyConnected);
    }
    return None;
  }

  /** chat is the address the chat windows are opened on, if they are. */
  method CreateNewGroup(userName: string, groupName: string, serverBuffer: array<byte>, db: DataBase.ChatDataBase,
                        server: Endian, host: Endian) returns (res: ClientErr, chat: Option<string>)
    requires WireText(userName) && WireText(groupName)
    requires serverBuffer.Length == SERVER_BUFF_SIZE && serverBuffer !in db.Repr
    requires db.Valid() && AddressesFit(db.View())
    modifies serverBuffer, db.Repr
    ensures db.Valid() && fresh(db.Repr - old(db.Repr))
    ensures var (db', out, ip) := DoCreate(old(db.View()), groupName, userName);
            && db.View() == db'
            && (out == DBGroupNameAlreadyExist ==> res == ClientFailGroupCreate && chat == None)
            && (out == DBGroupSuccessfullyInsert ==> res == ClientSuccess && (ip.Some? ==> chat == ip))
  {
    hide DataBase.ChatDataBase.Valid, DataBase.ChatDataBase.View;
    var newGroup := InitGroupStruct(CREATE_GROUP_CONVERSATION_REQ, userName, groupName, host);
    ghost var (state, out, ip) := DoCreate(db.View(), groupName, userName);
    var buffer := Exchange(newGroup, serverBuffer, db, server, host, Create(groupName, userName));
    assert db.View() == state;
    GroupTold(buffer[..], Create(groupName, userName), out, ip, host);
    var answer := WordAt(buffer[..], GROUP_ANSWER, host);
    if answer == Code(GROUP_SUCCESSFULLY_INSERT) {
      return ClientSuccess, Some(Text(CString(buffer[..], GROUP_IP)));
    } else if answer == Code(GROUP_NAME_ALREADY_EXIST) {
      return ClientFailGroupCreate, None;
    }
    return ClientSuccess, None;
  }

  method JoinToGroup(userName: string, groupName: string, serverBuffer: array<byte>, db: DataBase.ChatDataBase,
                     server: Endian, host: Endian) returns (res: ClientErr, chat: Option<string>)
    requires WireText(userName) && WireText(groupName)
    requires serverBuffer.Length == SERVER_BUFF_SIZE && serverBuffer !in db.Repr
    requires db.Valid() && AddressesFit(db.View())
    modifies serverBuffer, db.Repr
    ensures db.Valid() && fresh(db.Repr - old(db.Repr))
    ensures var (db', out, ip) := DoJoin(old(db.View()), groupName);
            && db.View() == db'
            && (out == DBGroupNameNotExist ==> res == ClientFailGroupCreate && chat == None)
            && (out == DBGroupJoinSuccessfully ==> res == ClientSuccess && chat == ip)
            && (out == DBGroupSuccessfullyInsert ==> res == ClientSuccess && chat == None)
  {
    hide DataBase.ChatDataBase.Valid, DataBase.ChatDataBase.View;
    var newGroup := InitGroupStruct(JOIN_CONVERSATION_REQ, userName, groupName, host);
    ghost var (state, out, ip) := DoJoin(db.View(), groupName);
    var buffer := Exchange(newGroup, serverBuffer, db, server, host, Join(groupName, userName));
    assert db.View() == state;
    GroupTold(buffer[..], Join(groupName, userName), out, ip, host);
    var answer := WordAt(buffer[..], GROUP_ANSWER, host);
    if answer == Code(GROUP_SUCCESSFULLY_JOIN) {
      return ClientSuccess, Some(Text(CString(buffer[..], GROUP_IP)));
    } else if answer == Code(GROUP_NAME_NOT_EXIST) {
      return ClientFailGroupCreate, None;
    }
    return ClientSuccess, None;
  }

  // ------------------------------------------------------------------------------------------------
  // Whole conversations

  /** A request that the functions above can send. */
  predicate Sendable(req: Request) {
    match req
    case Register(name, psw) => WireText(name) && WireText(psw)
    case Login(name, psw) => WireText(name) && WireText(psw)
    case Create(group, user) => WireText(group) && WireText(user)
    case Join(group, user) => WireText(group) && WireText(user)
    case Leave(_, _) => false
  }

  /** Builds the request and has it served. */
  method AskServer(req: Request, serverBuffer: array<byte>, db: DataBase.ChatDataBase, server: Endian, host: Endian)
    returns (buffer: array<byte>)
    requires Sendable(req) && serverBuffer.Length == SERVER_BUFF_SIZE && serverBuffer !in db.Repr
    requires db.Valid() && AddressesFit(db.View())
    modifies serverBuffer, db.Repr
    ensures db.Valid() && fresh(db.Repr - old(db.Repr)) && AddressesFit(db.View())
    ensures var (db', out) := Serve(old(db.View()), req); db.View() == db' && Tells(buffer[..], req, out, host)
  {
    hide DataBase.ChatDataBase.Valid, DataBase.ChatDataBase.View, AddressesFit, ReadAs, Tells, Serve;
    AddressesKeepFitting(db.View(), req);
    var request: array<byte>;
    match req {
      case Register(name, psw) => request := CreateUserDetails(REGISTER_REQ, name, psw, host);
      case Login(name, psw) => request := CreateUserDetails(LOGIN_REQ, name, psw, host);
      case Create(group, user) => request := InitGroupStruct(CREATE_GROUP_CONVERSATION_REQ, user, group, host);
      case Join(group, user) => request := InitGroupStruct(JOIN_CONVERSATION_REQ, user, group, host);
    }
    buffer := Exchange(request, serverBuffer, db, server, host, req);
  }

  /**
   Any sequence of registrations, logins, creations and joins leaves the database as after serving them in order, and
   each reply tells what the database answers at that point.
   */
  method Converse(reqs: seq<Request>, serverBuffer: array<byte>, db: DataBase.ChatDataBase, server: Endian,
                  host: Endian)
    returns (replies: seq<seq<byte>>)
    requires (forall i :: 0 <= i < |reqs| ==> Sendable(reqs[i]))
    requires serverBuffer.Length == SERVER_BUFF_SIZE && serverBuffer !in db.Repr
    requires db.Valid() && Initial(db.View())
    modifies serverBuffer, db.Repr
    ensures db.Valid() && fresh(db.Repr - old(db.Repr)) && db.View() == After(old(db.View()), reqs)
    ensures |replies| == |reqs|
    ensures forall i :: 0 <= i < |reqs| ==>
              Tells(replies[i], reqs[i], Answer(old(db.View()), reqs[..i], reqs[i]), host)
  {
    hide DataBase.ChatDataBase.Valid, DataBase.ChatDataBase.View, AddressesFit, Tells, Serve, Sendable;
    ghost var start := db.View();
    AddressesFitAtFirst(start);
    replies := [];
    for n := 0 to |reqs|
      invariant db.Valid() && fresh(db.Repr - old(db.Repr)) && AddressesFit(db.View()) && serverBuffer !in db.Repr
      invariant db.View() == After(start, reqs[..n]) && |replies| == n
      invariant forall i :: 0 <= i < n ==> Tells(replies[i], reqs[i], Answer(start, reqs[..i], reqs[i]), host)
    {
      var buffer := AskServer(reqs[n], serverBuffer, db, server, host);
      replies := replies + [buffer[..]];
      FrontLastSnoc(reqs[..n], reqs[n]);
      assert reqs[..n + 1] == reqs[..n] + [reqs[n]];
    }
    assert reqs[..|reqs|] == reqs;
  }

  /**
   The answers that the server's loop has given: whichever client receives the i-th one reads off it what the database
   answers to the i-th request after those before it.
   */
  lemma EveryAnswerReads(told: seq<seq<byte>>, start: DB, reqs: seq<Request>, i: nat, buffer: seq<byte>, host: Endian)
    requires Initial(start) && Told(told, start, reqs) && i < |reqs| && !reqs[i].Leave?
    requires |buffer| == BUFF_SIZE && Carries(buffer, told[i])
    ensures Tells(Unpacked(buffer, host), reqs[i], Answer(start, reqs[..i], reqs[i]), host)
  {
    hide AddressesFit;
    var out := Answer(start, reqs[..i], reqs[i]);
    AddressesAlwaysFit(start, reqs[..i]);
    AddressesKeepFitting(After(start, reqs[..i]), reqs[i]);
    assert Answers(told[i], start, reqs, i);
    AnswerReads(told[i], AnswerType(reqs[i]), AnswerCode(out), IpOf(out), buffer, host);
  }
}
