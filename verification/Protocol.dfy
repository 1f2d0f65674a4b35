/**
 Protocol/Protocol.c: tagging messages with their type and converting the answer field to and from network order, in
 place in the buffer that holds the message.
 */
module Protocol {
  import opened Wire

  // Protocol_Type
  const REGISTER_REQ: byte := 0
  const REGISTER_ANS: byte := 1
  const LOGIN_REQ: byte := 2
  const LOGIN_ANS: byte := 3
  const CREATE_GROUP_CONVERSATION_REQ: byte := 7
  const CREATE_GROUP_CONVERSATION_ANS: byte := 8
  const JOIN_CONVERSATION_REQ: byte := 9
  const JOIN_CONVERSATION_ANS: byte := 10
  const LEAVE_CONVERSATION_REQ: byte := 12
  const LEAVE_CONVERSATION_ANS: byte := 13

  // Answers
  const REGISTER_SUCCESS: byte := 0
  const REGISTER_USER_NAME_ALLREADY_EXIST: byte := 1
  const LOGIN_USER_SUCCESSFULLY_CONNECTED: byte := 2
  const LOGIN_USER_NAME_NOT_EXIST: byte := 3
  const LOGIN_WRONG_PSW: byte := 4
  const LOGIN_ALLREADY_CONNECTED: byte := 5
  const GROUP_SUCCESSFULLY_INSERT: byte := 6
  const GROUP_NAME_ALREADY_EXIST: byte := 7
  const GROUP_NAME_NOT_EXIST: byte := 8
  const GROUP_SUCCESSFULLY_JOIN: byte := 9

  // struct UserDetails
  const USER_PASSWORD: nat := 1
  const USER_NAME: nat := 18
  const USER_SIZE: nat := 35

  // struct GroupDetails
  const GROUP_NAME: nat := 1
  const GROUP_USER: nat := 19
  const GROUP_SIZE: nat := 36

  // struct Register_Ans and struct Login_Ans, with three bytes of padding
  const ANSWER: nat := 4
  const ANSWER_SIZE: nat := 8

  // struct Create_Group_Ans, with two bytes of padding
  const GROUP_IP: nat := 1
  const GROUP_ANSWER: nat := 20
  const GROUP_ANSWER_SIZE: nat := 24

  /** Where Pack finds the answer field, and converts it, when given this type. A leave request falls through. */
  function PackedField(t: byte): (off: nat)
    ensures off + 4 <= GROUP_ANSWER_SIZE
  {
    if t == LEAVE_CONVERSATION_REQ || t == REGISTER_ANS || t == LOGIN_ANS then ANSWER
    else if t == CREATE_GROUP_CONVERSATION_ANS || t == JOIN_CONVERSATION_ANS then GROUP_ANSWER
    else 0
  }

  predicate Tagged(t: byte) {
    t in {REGISTER_REQ, LOGIN_REQ, CREATE_GROUP_CONVERSATION_REQ, JOIN_CONVERSATION_REQ, LEAVE_CONVERSATION_REQ,
          REGISTER_ANS, LOGIN_ANS, CREATE_GROUP_CONVERSATION_ANS, JOIN_CONVERSATION_ANS}
  }

  /** The size of the message a type stands for. */
  function SizeOf(t: byte): (n: nat)
    ensures PackedField(t) == GROUP_ANSWER ==> n >= GROUP_ANSWER_SIZE
    ensures PackedField(t) == ANSWER ==> n >= ANSWER_SIZE
    ensures n >= 1
  {
    if t == REGISTER_REQ || t == LOGIN_REQ then USER_SIZE
    else if t == CREATE_GROUP_CONVERSATION_REQ || t == JOIN_CONVERSATION_REQ || t == LEAVE_CONVERSATION_REQ
    then GROUP_SIZE
    else if t == REGISTER_ANS || t == LOGIN_ANS then ANSWER_SIZE
    else GROUP_ANSWER_SIZE
  }

  /** What Pack makes of a message. */
  function Packed(t: byte, b: seq<byte>, host: Endian): (r: seq<byte>)
    requires |b| >= SizeOf(t)
    ensures |r| == |b|
  {
    if !Tagged(t) then b
    else if PackedField(t) == 0 then b[0 := t]
    else
      var off := PackedField(t);
      WithWord(b[0 := t], off, NetworkOrder(WordAt(b, off, host), host), host)
  }

  /** Where UnPack converts the answer field. It does so for a leave answer, too, which Pack leaves alone. */
  function UnpackedField(t: byte): nat {
    if t == REGISTER_ANS || t == LOGIN_ANS then ANSWER
    else if t == CREATE_GROUP_CONVERSATION_ANS || t == JOIN_CONVERSATION_ANS || t == LEAVE_CONVERSATION_ANS
    then GROUP_ANSWER
    else 0
  }

  function Unpacked(b: seq<byte>, host: Endian): (r: seq<byte>)
    requires |b| >= GROUP_ANSWER_SIZE
    ensures |r| == |b| && r[0] == b[0]
  {
    var off := UnpackedField(b[0]);
    if off == 0 then b else WithWord(b, off, NetworkOrder(WordAt(b, off, host), host), host)
  }

  /** The types that are not handled: those in between, and the leave answer when packing. */
  lemma OthersStay(t: byte, b: seq<byte>, host: Endian)
    ensures |b| >= SizeOf(t) && t !in {0, 1, 2, 3, 7, 8, 9, 10, 12} ==> Packed(t, b, host) == b
    ensures |b| >= GROUP_ANSWER_SIZE && b[0] !in {1, 3, 8, 10, 13} ==> Unpacked(b, host) == b
  {
  }

  /** Converts one field in place. */
  method ConvertField(value: array<byte>, off: nat, host: Endian)
    requires off + 4 <= value.Length
    modifies value
    ensures value[..] == old(WithWord(value[..], off, NetworkOrder(WordAt(value[..], off, host), host), host))
  {
    if host == Little {
      value[off], value[off + 1], value[off + 2], value[off + 3] :=
        value[off + 3], value[off + 2], value[off + 1], value[off];
    }
  }

  method Pack(t: byte, value: array<byte>, host: Endian)
    requires value.Length >= SizeOf(t)
    modifies value
    ensures value[..] == Packed(t, old(value[..]), host)
  {
    if t == REGISTER_REQ || t == LOGIN_REQ || t == CREATE_GROUP_CONVERSATION_REQ || t == JOIN_CONVERSATION_REQ {
      value[0] := t;
    } else if t == LEAVE_CONVERSATION_REQ || t == REGISTER_ANS || t == LOGIN_ANS {
      value[0] := t;
      ConvertField(value, ANSWER, host);
    } else if t == CREATE_GROUP_CONVERSATION_ANS || t == JOIN_CONVERSATION_ANS {
      value[0] := t;
      ConvertField(value, GROUP_ANSWER, host);
    }
  }

  method UnPack(value: array<byte>, host: Endian) returns (t: byte)
    requires value.Length >= GROUP_ANSWER_SIZE
    modifies value
    ensures value[..] == Unpacked(old(value[..]), host) && t == old(value[0])
  {
    t := value[0];
    if t == LOGIN_ANS || t == REGISTER_ANS {
      ConvertField(value, ANSWER, host);
    } else if t == CREATE_GROUP_CONVERSATION_ANS || t == JOIN_CONVERSATION_ANS || t == LEAVE_CONVERSATION_ANS {
      ConvertField(value, GROUP_ANSWER, host);
    }
  }

  // ------------------------------------------------------------------------------------------------
  // Answers: what the receiver reads is what the sender wrote

  predicate IsAnswer(t: byte) {
    t in {REGISTER_ANS, LOGIN_ANS, CREATE_GROUP_CONVERSATION_ANS, JOIN_CONVERSATION_ANS}
  }

  /** buffer begins with the message b; whatever comes after it does not matter. */
  ghost predicate Carries(buffer: seq<byte>, b: seq<byte>) {
    |b| <= |buffer| && buffer[..|b|] == b
  }

  /** For hosts of any byte order, and whatever was in the receiver's buffer before. */
  lemma AnswerRoundTrip(t: byte, b: seq<byte>, buffer: seq<byte>, sender: Endian, receiver: Endian)
    requires IsAnswer(t) && |b| == SizeOf(t) && |buffer| >= GROUP_ANSWER_SIZE
    requires Carries(buffer, Packed(t, b, sender))
    ensures var got := Unpacked(buffer, receiver); var off := PackedField(t);
            && got[0] == t && WordAt(got, off, receiver) == WordAt(b, off, sender)
            && (forall i :: 0 < i < |b| && !(off <= i < off + 4) ==> got[i] == b[i])
  {
    var packed := Packed(t, b, sender);
    assert forall i :: 0 <= i < |b| ==> buffer[i] == packed[i];
  }

  /** A leave answer is not converted by its sender: the receiver gets it right only from a big-endian host. */
  lemma LeaveAnswerIff(answer: byte, b: seq<byte>, buffer: seq<byte>, sender: Endian, receiver: Endian)
    requires |b| == SizeOf(LEAVE_CONVERSATION_ANS) && |buffer| >= GROUP_ANSWER_SIZE && b[0] == LEAVE_CONVERSATION_ANS
    requires WordAt(b, GROUP_ANSWER, sender) == Code(answer)
        && Carries(buffer, Packed(LEAVE_CONVERSATION_ANS, b, sender))
    ensures WordAt(Unpacked(buffer, receiver), GROUP_ANSWER, receiver) == Code(answer) <==> sender == Big || answer == 0
  {
    assert forall i :: 0 <= i < |b| ==> buffer[i] == b[i];
  }

  // ------------------------------------------------------------------------------------------------
  // Requests: the server reads the names the client wrote

  /** A register or login request before it is packed; raw is what the struct held when it was allocated. */
  function UserStruct(raw: seq<byte>, name: seq<byte>, password: seq<byte>): (r: seq<byte>)
    requires |raw| == USER_SIZE && |name| <= 16 && |password| <= 16
    ensures |r| == USER_SIZE
  {
    StrCpy(StrCpy(raw, USER_NAME, name), USER_PASSWORD, password)
  }

  function UserRequest(raw: seq<byte>, t: byte, name: seq<byte>, password: seq<byte>): (r: seq<byte>)
    requires |raw| == USER_SIZE && |name| <= 16 && |password| <= 16
    ensures |r| == USER_SIZE
  {
    UserStruct(raw, name, password)[0 := t]
  }

  /** A request about a group before it is packed. */
  function GroupStruct(raw: seq<byte>, group: seq<byte>, user: seq<byte>): (r: seq<byte>)
    requires |raw| == GROUP_SIZE && |group| <= 16 && |user| <= 16
    ensures |r| == GROUP_SIZE
  {
    StrCpy(StrCpy(raw, GROUP_NAME, group), GROUP_USER, user)
  }

  lemma UserStructReads(raw: seq<byte>, name: seq<byte>, password: seq<byte>)
    requires |raw| == USER_SIZE && |name| <= 16 && |password| <= 16 && 0 !in name && 0 !in password
    ensures var b := UserStruct(raw, name, password);
            CString(b, USER_NAME) == name && CString(b, USER_PASSWORD) == password
  {
    var b1 := StrCpy(raw, USER_NAME, name);
    StrCpyReads(raw, USER_NAME, name);
    StrCpyReads(b1, USER_PASSWORD, password);
    CStringKept(b1, UserStruct(raw, name, password), USER_NAME);
  }

  lemma UserRequestReads(raw: seq<byte>, t: byte, name: seq<byte>, password: seq<byte>, buffer: seq<byte>)
    requires |raw| == USER_SIZE && |name| <= 16 && |password| <= 16 && 0 !in name && 0 !in password
    requires Carries(buffer, UserRequest(raw, t, name, password))
    ensures buffer[0] == t && CString(buffer, USER_NAME) == name && CString(buffer, USER_PASSWORD) == password
  {
    var b := UserStruct(raw, name, password);
    UserStructReads(raw, name, password);
    assert forall i :: 0 <= i < |b| ==> buffer[i] == b[0 := t][i];
    CStringKept(b, buffer, USER_NAME);
    CStringKept(b, buffer, USER_PASSWORD);
  }

  lemma GroupStructReads(raw: seq<byte>, group: seq<byte>, user: seq<byte>)
    requires |raw| == GROUP_SIZE && |group| <= 16 && |user| <= 16 && 0 !in group && 0 !in user
    ensures var b := GroupStruct(raw, group, user); CString(b, GROUP_NAME) == group && CString(b, GROUP_USER) == user
  {
    var b1 := StrCpy(raw, GROUP_NAME, group);
    StrCpyReads(raw, GROUP_NAME, group);
    StrCpyReads(b1, GROUP_USER, user);
    CStringKept(b1, GroupStruct(raw, group, user), GROUP_NAME);
  }

  lemma GroupRequestReads(raw: seq<byte>, t: byte, group: seq<byte>, user: seq<byte>, host: Endian, buffer: seq<byte>)
    requires t == CREATE_GROUP_CONVERSATION_REQ || t == JOIN_CONVERSATION_REQ
    requires |raw| == GROUP_SIZE && |group| <= 16 && |user| <= 16 && 0 !in group && 0 !in user
    requires Carries(buffer, Packed(t, GroupStruct(raw, group, user), host))
    ensures buffer[0] == t && CString(buffer, GROUP_NAME) == group && CString(buffer, GROUP_USER) == user
  {
    var b := GroupStruct(raw, group, user);
    GroupStructReads(raw, group, user);
    assert forall i :: 0 <= i < |b| ==> buffer[i] == b[0 := t][i];
    CStringKept(b, buffer, GROUP_NAME);
    CStringKept(b, buffer, GROUP_USER);
  }

  /**
   Packing a leave request converts bytes 4 to 7 of the struct, which hold characters 3 to 6 of the group name. The
   server reads the right name exactly when the client's host is big-endian, or the name ends before those bytes, or
   they read the same backwards as far as the name reaches.
   */
  lemma LeaveRequestIff(raw: seq<byte>, group: seq<byte>, user: seq<byte>, host: Endian, buffer: seq<byte>)
    requires |raw| == GROUP_SIZE && |group| <= 16 && |user| <= 16 && 0 !in group && 0 !in user
    requires Carries(buffer, Packed(LEAVE_CONVERSATION_REQ, GroupStruct(raw, group, user), host))
    ensures var b := GroupStruct(raw, group, user);
            CString(buffer, GROUP_NAME) == group <==>
            host == Big || |group| <= 2 || (b[4] == b[7] && (|group| == 3 || b[5] == b[6]))
  {
    var b := GroupStruct(raw, group, user);
    var packed := Packed(LEAVE_CONVERSATION_REQ, b, host);
    GroupStructReads(raw, group, user);
    assert forall i :: 0 <= i < |b| ==> buffer[i] == packed[i];
    NameReadsIff(buffer, b, group);
  }

  /** A leave request for group abcdefg from a little-endian client: the server reads abcgfed. */
  lemma LeaveNameMangled(raw: seq<byte>, user: seq<byte>, buffer: seq<byte>)
    requires |raw| == GROUP_SIZE && |user| <= 16 && 0 !in user
    requires Carries(buffer,
        Packed(LEAVE_CONVERSATION_REQ, GroupStruct(raw, [97, 98, 99, 100, 101, 102, 103], user), Little))
    ensures CString(buffer, GROUP_NAME) == [97, 98, 99, 103, 102, 101, 100]
  {
    var group, read: seq<byte> := [97, 98, 99, 100, 101, 102, 103], [97, 98, 99, 103, 102, 101, 100];
    var b := GroupStruct(raw, group, user);
    var packed := Packed(LEAVE_CONVERSATION_REQ, b, Little);
    assert forall i :: 0 <= i < |b| ==> buffer[i] == packed[i];
    GroupStructReads(raw, group, user);
    assert b[1..8] == group && b[8] == 0;
    assert b[1] == group[0] && b[2] == group[1] && b[3] == group[2] && b[4] == group[3];
    assert b[5] == group[4] && b[6] == group[5] && b[7] == group[6];
    assert buffer[GROUP_NAME..GROUP_NAME + 7] == read;
    CStringIs(buffer, GROUP_NAME, read);
  }

  /** The name is read from a buffer exactly if the buffer agrees with it up to its terminator. */
  lemma NameReadsIff(buffer: seq<byte>, b: seq<byte>, name: seq<byte>)
    requires |buffer| >= |b| == GROUP_SIZE && |name| <= 16 && CString(b, GROUP_NAME) == name
    ensures CString(buffer, GROUP_NAME) == name
        <==> forall i :: GROUP_NAME <= i <= GROUP_NAME + |name| ==> buffer[i] == b[i]
  {
    if CString(buffer, GROUP_NAME) == name {
      forall i | GROUP_NAME <= i < GROUP_NAME + |name|
        ensures buffer[i] == b[i]
      {
        assert buffer[i] == name[i - GROUP_NAME] == b[i];
      }
    }
    if forall i :: GROUP_NAME <= i <= GROUP_NAME + |name| ==> buffer[i] == b[i] {
      CStringKept(b, buffer, GROUP_NAME);
    }
  }
}
