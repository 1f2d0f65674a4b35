/**
 ServerApp/ServerApp.c: read the request out of the receive buffer, ask the database, and fill and pack an answer.
 A struct fresh from malloc holds arbitrary bytes.
 */
module ServerApp {
  import opened Options
  import opened Wire
  import opened Protocol
  import opened Sequences
  import opened ChatState
  import AddressPool
  import DataBase

  /** The request a buffer holds, if its type is one the application serves. */
  function RequestOf(b: seq<byte>): Option<Request>
    requires |b| >= GROUP_SIZE
  {
    if b[0] == REGISTER_REQ then Some(Register(Text(CString(b, USER_NAME)), Text(CString(b, USER_PASSWORD))))
    else if b[0] == LOGIN_REQ then Some(Login(Text(CString(b, USER_NAME)), Text(CString(b, USER_PASSWORD))))
    else if b[0] == CREATE_GROUP_CONVERSATION_REQ then
      Some(Create(Text(CString(b, GROUP_NAME)), Text(CString(b, GROUP_USER))))
    else if b[0] == JOIN_CONVERSATION_REQ then
      Some(Join(Text(CString(b, GROUP_NAME)), Text(CString(b, GROUP_USER))))
    else if b[0] == LEAVE_CONVERSATION_REQ then
      Some(Leave(Text(CString(b, GROUP_NAME)), Text(CString(b, GROUP_USER))))
    else None
  }

  /** Whatever else is in the server's buffer, it takes the message for this request. */
  ghost predicate ReadAs(message: seq<byte>, req: Request) {
    forall b: seq<byte> :: |b| >= GROUP_SIZE && Carries(b, message) ==> RequestOf(b) == Some(req)
  }

  /** The layout of the requests, in bytes: the type, then password and name, or group and name. */
  lemma RequestLayout(b: seq<byte>)
    requires |b| >= 36
    ensures b[0] == 0 ==> RequestOf(b) == Some(Register(Text(CString(b, 18)), Text(CString(b, 1))))
    ensures b[0] == 2 ==> RequestOf(b) == Some(Login(Text(CString(b, 18)), Text(CString(b, 1))))
    ensures b[0] == 7 ==> RequestOf(b) == Some(Create(Text(CString(b, 1)), Text(CString(b, 19))))
    ensures b[0] == 9 ==> RequestOf(b) == Some(Join(Text(CString(b, 1)), Text(CString(b, 19))))
    ensures b[0] == 12 ==> RequestOf(b) == Some(Leave(Text(CString(b, 1)), Text(CString(b, 19))))
    ensures b[0] !in {0, 2, 7, 9, 12} ==> RequestOf(b) == None
  {
  }

  function AnswerType(req: Request): (t: byte)
    ensures !req.Leave? ==> IsAnswer(t)
  {
    match req
    case Register(_, _) => REGISTER_ANS
    case Login(_, _) => LOGIN_ANS
    case Create(_, _) => CREATE_GROUP_CONVERSATION_ANS
    case Join(_, _) => JOIN_CONVERSATION_ANS
    case Leave(_, _) => LEAVE_CONVERSATION_ANS
  }

  /** The answer code for what the database has said. */
  function AnswerCode(out: Outcome): byte {
    match out
    case Registered(unique) => if unique then REGISTER_SUCCESS else REGISTER_USER_NAME_ALLREADY_EXIST
    case LoggedIn(res) => LoginCode(res)
    case Grouped(res, _) => GroupCode(res)
  }

  function LoginCode(res: DBErr): byte {
    match res
    case DBConnectSuccessfully => LOGIN_USER_SUCCESSFULLY_CONNECTED
    case DBAlreadyConnected => LOGIN_ALLREADY_CONNECTED
    case DBWrongUserName => LOGIN_USER_NAME_NOT_EXIST
    case _ => LOGIN_WRONG_PSW
  }

  function GroupCode(res: DBErr): byte {
    match res
    case DBGroupSuccessfullyInsert => GROUP_SUCCESSFULLY_INSERT
    case DBGroupNameAlreadyExist => GROUP_NAME_ALREADY_EXIST
    case DBGroupNameNotExist => GROUP_NAME_NOT_EXIST
    case _ => GROUP_SUCCESSFULLY_JOIN
  }

  /** The numbers of the answers, for every outcome that the database has for a kind of request. */
  lemma AnswerNumbers(ip: Option<string>)
    ensures AnswerCode(Registered(true)) == 0 && AnswerCode(Registered(false)) == 1
    ensures AnswerCode(LoggedIn(DBConnectSuccessfully)) == 2 && AnswerCode(LoggedIn(DBWrongUserName)) == 3
    ensures AnswerCode(LoggedIn(DBWrongPsw)) == 4 && AnswerCode(LoggedIn(DBAlreadyConnected)) == 5
    ensures AnswerCode(Grouped(DBGroupSuccessfullyInsert, ip)) == 6
    ensures AnswerCode(Grouped(DBGroupNameAlreadyExist, ip)) == 7
    ensures AnswerCode(Grouped(DBGroupNameNotExist, ip)) == 8
    ensures AnswerCode(Grouped(DBGroupJoinSuccessfully, ip)) == 9
    ensures AnswerCode(Grouped(DBGroupRemoveSuccessfully, ip)) == 9
  {
  }

  /** An address that fits the 16-byte buffers it is copied to. */
  predicate Fits(ip: string) {
    WireText(ip) && |ip| <= 15
  }

  ghost predicate AddressesFit(db: DB) {
    && (forall g :: g in db.groups ==> Fits(db.groups[g].ipAddGroup))
    && (forall i :: 0 <= i < |db.pool.ring.cells| && db.pool.ring.cells[i].Some? ==> Fits(db.pool.ring.cells[i].value))
  }

  lemma AddressesKeepFitting(db: DB, req: Request)
    requires Ready(db) && AddressesFit(db)
    ensures AddressesFit(Serve(db, req).0)
    ensures var out := Serve(db, req).1; out.Grouped? && out.ip.Some? ==> Fits(out.ip.value)
  {
  }

  lemma AddressesFitAtFirst(db: DB)
    requires Initial(db)
    ensures AddressesFit(db)
  {
    AddressPool.FilledCycles(db.pool);
    forall i | 0 <= i < |db.pool.ring.cells|
      ensures Fits(AddressPool.AddressAt(i))
    {
      AddressPool.AddressFits(i);
    }
  }

  /** In every reachable database the addresses fit. */
  lemma {:induction false} AddressesAlwaysFit(db: DB, reqs: seq<Request>)
    requires Initial(db)
    ensures AddressesFit(After(db, reqs))
  {
    if reqs == [] {
      AddressesFitAtFirst(db);
    } else {
      AddressesAlwaysFit(db, Front(reqs));
      AddressesKeepFitting(After(db, Front(reqs)), Last(reqs));
    }
  }

  /** The answer field in network order says code, and the address field holds ip, if there is one. */
  ghost predicate Says(answer: seq<byte>, t: byte, code: byte, ip: Option<string>) {
    && |answer| == SizeOf(t) && answer[0] == t
    && (IsAnswer(t) ==> WordAt(answer, PackedField(t), Big) == Code(code))
    && (ip.Some? && |answer| == GROUP_ANSWER_SIZE ==> Text(CString(answer, GROUP_IP)) == ip.value)
  }

  method PutCode(answer: array<byte>, off: nat, code: byte, host: Endian)
    requires off + 4 <= answer.Length
    modifies answer
    ensures answer[..] == WithWord(old(answer[..]), off, Code(code), host)
  {
    if host == Big {
      answer[off], answer[off + 1], answer[off + 2], answer[off + 3] := 0, 0, 0, code;
    } else {
      answer[off], answer[off + 1], answer[off + 2], answer[off + 3] := code, 0, 0, 0;
    }
  }

  method PutString(b: array<byte>, off: nat, s: string)
    requires WireText(s) && off + |s| < b.Length
    modifies b
    ensures b[..] == StrCpy(old(b[..]), off, Bytes(s))
  {
    ghost var was := b[..];
    for i := 0 to |s|
      invariant b[..] == Putting(was, off, Bytes(s), i)
    {
      PutOne(was, off, Bytes(s), i);
      b[off + i] := s[i] as int as byte;
    }
    b[off + |s|] := 0;
  }

  /** The buffer when the first i characters are in it. */
  ghost function Putting(was: seq<byte>, off: nat, t: seq<byte>, i: nat): seq<byte>
    requires i <= |t| && off + |t| < |was|
  {
    was[..off] + t[..i] + was[off + i..]
  }

  lemma PutOne(was: seq<byte>, off: nat, t: seq<byte>, i: nat)
    requires i < |t| && off + |t| < |was|
    ensures Putting(was, off, t, i)[off + i := t[i]] == Putting(was, off, t, i + 1)
  {
    assert t[..i + 1] == t[..i] + [t[i]];
  }

  method CheckUserNameOnDB(user: array<byte>, db: DataBase.ChatDataBase, t: byte, host: Endian)
    returns (answer: array<byte>, ghost out: Outcome)
    requires db.Valid() && user.Length >= GROUP_SIZE && user !in db.Repr
    requires user[0] == t && (t == REGISTER_REQ || t == LOGIN_REQ)
    modifies db.Repr
    ensures db.Valid() && fresh(db.Repr - old(db.Repr)) && fresh(answer) && answer !in db.Repr
        && RequestOf(user[..]).Some?
    ensures (db.View(), out) == Serve(old(db.View()), RequestOf(user[..]).value)
    ensures answer.Length == ANSWER_SIZE && answer[0] == AnswerType(RequestOf(user[..]).value)
    ensures WordAt(answer[..], ANSWER, host) == Code(AnswerCode(out)) && answer[0] as int == t as int + 1
    ensures answer[4..8] == if host == Big then [0, 0, 0, AnswerCode(out)] else [AnswerCode(out), 0, 0, 0]
  {
    hide DataBase.ChatDataBase.Valid, DataBase.ChatDataBase.View;
    var name, psw := Text(CString(user[..], USER_NAME)), Text(CString(user[..], USER_PASSWORD));
    answer := new byte[ANSWER_SIZE];
    if t == REGISTER_REQ {
      answer[0] := REGISTER_ANS;
      var unique := db.IsUserNameUnique(name, psw);
      out := Registered(unique);
      PutCode(answer, ANSWER, if unique then REGISTER_SUCCESS else REGISTER_USER_NAME_ALLREADY_EXIST, host);
    } else {
      answer[0] := LOGIN_ANS;
      var rcv := db.CheckClientStatusAndConnect(name, psw);
      out := LoggedIn(rcv);
      PutCode(answer, ANSWER, LoginCode(rcv), host);
    }
    CodeBytes(answer[..], ANSWER, AnswerCode(out), host);
    assert answer[..][4..8] == answer[4..8];
  }

  /** The text of the address for the answer: the buffers it comes from are zeroed, so it is empty if not written. */
  function IpText(ip: Option<string>): string {
    match ip
    case Some(a) => a
    case None => ""
  }

  method PutAddress(answer: array<byte>, ip: string)
    requires answer.Length == GROUP_ANSWER_SIZE && Fits(ip)
    modifies answer
    ensures answer[0] == old(answer[0]) && |CString(answer[..], GROUP_IP)| <= 15
    ensures Text(CString(answer[..], GROUP_IP)) == ip
  {
    ghost var was := answer[..];
    PutString(answer, GROUP_IP, ip);
    StrCpyReads(was, GROUP_IP, Bytes(ip));
    assert answer[0] == answer[..][0];
  }

  /** Fills a group answer; where the name was taken, the address field keeps what malloc left there. */
  method FillGroupAnswer(answer: array<byte>, t: byte, res: DBErr, ip: Option<string>, host: Endian)
    requires answer.Length == GROUP_ANSWER_SIZE && Fits(IpText(ip))
    requires ip.Some? ==> res != DBGroupNameAlreadyExist
    modifies answer
    ensures answer[0] == t && WordAt(answer[..], GROUP_ANSWER, host) == Code(GroupCode(res))
    ensures res != DBGroupNameAlreadyExist ==> Text(CString(answer[..], GROUP_IP)) == IpText(ip)
  {
    hide StrCpy;
    answer[0] := t;
    if res != DBGroupNameAlreadyExist {
      PutAddress(answer, IpText(ip));
    }
    ghost var filled := answer[..];
    PutCode(answer, GROUP_ANSWER, GroupCode(res), host);
    if res != DBGroupNameAlreadyExist {
      CStringKept(filled, answer[..], GROUP_IP);
    }
  }

  method ANSForGroupRequests(group: array<byte>, db: DataBase.ChatDataBase, t: byte, host: Endian)
    returns (answer: array<byte>, ghost out: Outcome)
    requires db.Valid() && group.Length >= GROUP_SIZE && group !in db.Repr && AddressesFit(db.View())
    requires group[0] == t
    requires t == CREATE_GROUP_CONVERSATION_REQ || t == JOIN_CONVERSATION_REQ || t == LEAVE_CONVERSATION_REQ
    modifies db.Repr
    ensures db.Valid() && fresh(db.Repr - old(db.Repr)) && fresh(answer) && answer !in db.Repr
        && RequestOf(group[..]).Some?
    ensures (db.View(), out) == Serve(old(db.View()), RequestOf(group[..]).value) && out.Grouped?
    ensures answer.Length == GROUP_ANSWER_SIZE && answer[0] == AnswerType(RequestOf(group[..]).value)
    ensures WordAt(answer[..], GROUP_ANSWER, host) == Code(AnswerCode(out))
    ensures out.ip.Some? ==> out.res != DBGroupNameAlreadyExist && Fits(out.ip.value)
    ensures out.res != DBGroupNameAlreadyExist ==>
              Text(CString(answer[..], 1)) == if out.ip.Some? then out.ip.value else ""
    ensures answer[0] as int == t as int + 1
    ensures answer[20..24] == if host == Big then [0, 0, 0, AnswerCode(out)] else [AnswerCode(out), 0, 0, 0]
  {
    hide DataBase.ChatDataBase.Valid, DataBase.ChatDataBase.View;
    var groupName, userName := Text(CString(group[..], GROUP_NAME)), Text(CString(group[..], GROUP_USER));
    AddressesKeepFitting(db.View(), RequestOf(group[..]).value);
    answer := new byte[GROUP_ANSWER_SIZE];
    var res, ip, ansType;
    if t == CREATE_GROUP_CONVERSATION_REQ {
      ansType := CREATE_GROUP_CONVERSATION_ANS;
      res, ip := db.CheckGroupNameAndInsert(groupName, userName);
    } else if t == JOIN_CONVERSATION_REQ {
      ansType := JOIN_CONVERSATION_ANS;
      res, ip := db.TryToJoinToGroup(groupName);
    } else {
      ansType := LEAVE_CONVERSATION_ANS;
      res, ip := db.TryToLeaveToGroup(groupName, userName);
    }
    out := Grouped(res, ip);
    FillGroupAnswer(answer, ansType, res, ip, host);
    CodeBytes(answer[..], GROUP_ANSWER, AnswerCode(out), host);
    assert answer[..][20..24] == answer[20..24];
  }

  /** The answer before it is packed: the code is in the host's order. */
  ghost predicate Filled(answer: seq<byte>, t: byte, code: byte, ip: Option<string>, host: Endian) {
    && |answer| == SizeOf(t) && answer[0] == t && (IsAnswer(t) || t == LEAVE_CONVERSATION_ANS)
    && WordAt(answer, if |answer| == ANSWER_SIZE then ANSWER else GROUP_ANSWER, host) == Code(code)
    && (ip.Some? ==> |answer| == GROUP_ANSWER_SIZE && Fits(ip.value) && Text(CString(answer, GROUP_IP)) == ip.value)
  }

  /** The address in the answer: the empty one when there is none to tell, and none at all where it is not written. */
  function IpOf(out: Outcome): Option<string> {
    if out.Grouped? && (out.ip.Some? || out.res != DBGroupNameAlreadyExist) then Some(IpText(out.ip)) else None
  }

  method Dispatch(rcvFromClient: array<byte>, db: DataBase.ChatDataBase, t: byte, host: Endian)
    returns (answer: array?<byte>, ghost out: Outcome)
    requires db.Valid() && rcvFromClient.Length >= GROUP_SIZE && rcvFromClient !in db.Repr && AddressesFit(db.View())
    requires rcvFromClient[0] == t
    modifies db.Repr
    ensures db.Valid() && fresh(db.Repr - old(db.Repr)) && (answer == null <==> RequestOf(rcvFromClient[..]).None?)
    ensures answer == null ==> db.View() == old(db.View())
    ensures answer != null ==>
              var req := RequestOf(rcvFromClient[..]).value;
              && fresh(answer) && answer !in db.Repr && (db.View(), out) == Serve(old(db.View()), req)
              && Filled(answer[..], AnswerType(req), AnswerCode(out), IpOf(out), host)
  {
    hide DataBase.ChatDataBase.Valid, DataBase.ChatDataBase.View;
    if t == REGISTER_REQ || t == LOGIN_REQ {
      answer, out := CheckUserNameOnDB(rcvFromClient, db, t, host);
    } else if t == CREATE_GROUP_CONVERSATION_REQ || t == JOIN_CONVERSATION_REQ || t == LEAVE_CONVERSATION_REQ {
      answer, out := ANSForGroupRequests(rcvFromClient, db, t, host);
    } else {
      answer, out := null, Registered(false);
    }
  }

  /** For a message of any other type there is no answer, and the code goes on to read one that is NULL. */
  method GetFromClientAndSendToServer(rcvFromClient: array<byte>, db: DataBase.ChatDataBase, host: Endian)
    returns (answer: array?<byte>)
    requires db.Valid() && rcvFromClient.Length >= GROUP_SIZE && rcvFromClient !in db.Repr && AddressesFit(db.View())
    modifies rcvFromClient, db.Repr
    ensures db.Valid() && fresh(db.Repr - old(db.Repr)) && (answer == null <==> old(RequestOf(rcvFromClient[..])).None?)
    ensures answer == null ==> db.View() == old(db.View())
    ensures answer != null ==>
              var req := old(RequestOf(rcvFromClient[..])).value; var (db', out) := Serve(old(db.View()), req);
              && db.View() == db' && fresh(answer)
              && Says(answer[..], AnswerType(req), AnswerCode(out), IpOf(out))
              && answer[0] as int == old(rcvFromClient[0]) as int + 1
              && (req.Register? || req.Login? ==> answer.Length == 8 && answer[4..8] == [0, 0, 0, AnswerCode(out)])
              && (req.Create? || req.Join? ==> answer.Length == 24 && answer[20..24] == [0, 0, 0, AnswerCode(out)])
              && (req.Leave? ==>
                    answer.Length == 24 && answer[20..24] ==
                      if host == Big then [0, 0, 0, AnswerCode(out)] else [AnswerCode(out), 0, 0, 0])
              && (out.Grouped? && out.res != DBGroupNameAlreadyExist ==>
                    answer.Length == 24 && Text(CString(answer[..], 1)) == if out.ip.Some? then out.ip.value else "")
  {
    hide DataBase.ChatDataBase.Valid, DataBase.ChatDataBase.View;
    UnpackKeepsRequest(rcvFromClient[..], host);
    ghost var state, req := db.View(), RequestOf(rcvFromClient[..]);
    var t := UnPack(rcvFromClient, host);
    assert db.Valid() && db.View() == state && RequestOf(rcvFromClient[..]) == req;
    ghost var out;
    answer, out := Dispatch(rcvFromClient, db, t, host);
    if answer != null {
      PackAnswer(answer, host, AnswerCode(out), IpOf(out));
      TypesFollow(rcvFromClient[..]);
      SaysBytes(answer[..], req.value, AnswerCode(out), IpOf(out), host);
      AsBytes(answer);
    }
  }

  method PackAnswer(answer: array<byte>, host: Endian, ghost code: byte, ghost ip: Option<string>)
    requires answer.Length > 0 && Filled(answer[..], answer[0], code, ip, host)
    modifies answer
    ensures Says(answer[..], old(answer[0]), code, ip)
    ensures old(answer[0]) == LEAVE_CONVERSATION_ANS ==> WordAt(answer[..], GROUP_ANSWER, host) == Code(code)
  {
    ghost var filled := answer[..];
    Pack(answer[0], answer, host);
    PackedSays(filled, host, code, ip);
  }

  /** The type of an answer is the next number after the type of its request. */
  lemma TypesFollow(b: seq<byte>)
    requires |b| >= GROUP_SIZE && RequestOf(b).Some?
    ensures AnswerType(RequestOf(b).value) as int == b[0] as int + 1
  {
  }

  /** What an answer says, in bytes. The code of a leave answer is in the order of the server's host. */
  lemma SaysBytes(answer: seq<byte>, req: Request, code: byte, ip: Option<string>, host: Endian)
    requires Says(answer, AnswerType(req), code, ip)
    requires req.Leave? ==> WordAt(answer, GROUP_ANSWER, host) == Code(code)
    ensures req.Register? || req.Login? ==> |answer| == 8 && answer[4..8] == [0, 0, 0, code]
    ensures req.Create? || req.Join? ==> |answer| == 24 && answer[20..24] == [0, 0, 0, code]
    ensures req.Leave? ==>
              |answer| == 24 && answer[20..24] == if host == Big then [0, 0, 0, code] else [code, 0, 0, 0]
    ensures ip.Some? && |answer| == 24 ==> Text(CString(answer, 1)) == ip.value
  {
    if req.Leave? {
      CodeBytes(answer, GROUP_ANSWER, code, host);
    } else {
      CodeBytes(answer, PackedField(AnswerType(req)), code, Big);
    }
  }

  lemma AsBytes(b: array<byte>)
    ensures b.Length >= 8 ==> b[..][4..8] == b[4..8]
    ensures b.Length >= 24 ==> b[..][20..24] == b[20..24]
  {
  }

  lemma UnpackKeepsRequest(b: seq<byte>, host: Endian)
    requires |b| >= GROUP_SIZE
    ensures RequestOf(Unpacked(b, host)) == RequestOf(b)
  {
  }

  /** Packing keeps the address and turns the code to network order. */
  lemma PackedSays(b: seq<byte>, host: Endian, code: byte, ip: Option<string>)
    requires |b| > 0 && Filled(b, b[0], code, ip, host)
    ensures Says(Packed(b[0], b, host), b[0], code, ip)
  {
    var p := Packed(b[0], b, host);
    if ip.Some? {
      CStringKept(b, p, GROUP_IP);
    }
  }
}
