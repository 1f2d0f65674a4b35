/**
 The application plugged into the server: the function m_appFunc with its context, the database, and the server's
 receive buffer. It keeps the history of what it was asked and what it has answered.
 */
module Application {
  import opened Options
  import opened Wire
  import opened Protocol
  import opened ChatState
  import opened ServerApp
  import SelectLoop
  import DataBase

  const SERVER_BUFF_SIZE: nat := 1024

  ghost function Requests(asked: seq<SelectLoop.Ask>): (reqs: seq<Request>)
    ensures |reqs| == |asked| && forall i :: 0 <= i < |asked| ==> reqs[i] == asked[i].request
  {
    seq(|asked|, i requires 0 <= i < |asked| => asked[i].request)
  }

  /** The message answers the i-th request as the database, begun in start, answers it after those before. */
  ghost predicate Answers(message: seq<byte>, start: DB, reqs: seq<Request>, i: nat)
    requires Ready(start) && i < |reqs|
  {
    var out := Answer(start, reqs[..i], reqs[i]);
    Says(message, AnswerType(reqs[i]), AnswerCode(out), IpOf(out))
  }

  /** Every request has its answer. */
  ghost predicate Told(told: seq<seq<byte>>, start: DB, reqs: seq<Request>)
    requires Ready(start)
  {
    |told| == |reqs| && forall i :: 0 <= i < |reqs| ==> Answers(told[i], start, reqs, i)
  }

  /** One more request, answered in the state the others have led to. */
  lemma ToldOneMore(told: seq<seq<byte>>, start: DB, reqs: seq<Request>, req: Request, message: seq<byte>)
    requires Ready(start) && Told(told, start, reqs)
    requires var out := Answer(start, reqs, req); Says(message, AnswerType(req), AnswerCode(out), IpOf(out))
    ensures Told(told + [message], start, reqs + [req])
    ensures After(start, reqs + [req]) == Serve(After(start, reqs), req).0
  {
    hide Says, Serve;
    var more := reqs + [req];
    assert more[..|more| - 1] == reqs && more[|more| - 1] == req;
    forall i | 0 <= i < |more|
      ensures Answers((told + [message])[i], start, more, i)
    {
      if i < |reqs| {
        assert Answers(told[i], start, reqs, i);
        assert more[..i] == reqs[..i];
      } else {
        assert more[..i] == reqs;
      }
    }
  }

  lemma Reads(message: seq<byte>, buffer: seq<byte>, request: Request)
    requires ReadAs(message, request) && Carries(buffer, message) && |buffer| >= GROUP_SIZE
    ensures RequestOf(buffer) == Some(request)
  {
  }

  class Application {
    const dataBase: DataBase.ChatDataBase
    const bufferRcv: array<byte>
    const host: Endian

    ghost const start: DB
    ghost var asked: seq<SelectLoop.Ask>
    ghost var told: seq<seq<byte>>
    ghost var Repr: set<object>

    ghost predicate Valid()
      reads this, Repr
      ensures Valid() ==> this in Repr
    {
      && this in Repr && bufferRcv in Repr && dataBase in Repr && dataBase.Repr <= Repr
      && this !in dataBase.Repr && bufferRcv !in dataBase.Repr && bufferRcv.Length == SERVER_BUFF_SIZE
      && dataBase.Valid() && AddressesFit(dataBase.View())
      && Ready(start) && dataBase.View() == After(start, Requests(asked)) && Told(told, start, Requests(asked))
    }

    constructor (host: Endian)
      ensures Valid() && fresh(Repr) && asked == [] && Initial(start)
    {
      hide DataBase.ChatDataBase.Valid, DataBase.ChatDataBase.View, AddressesFit, Initial;
      var db := new DataBase.ChatDataBase();
      this.host, dataBase, bufferRcv := host, db, new byte[SERVER_BUFF_SIZE](_ => 0);
      start, asked, told := db.View(), [], [];
      new;
      Repr := {this, bufferRcv} + dataBase.Repr;
      AddressesFitAtFirst(start);
    }

    /** What recv does with the buffer. */
    method Receive(message: seq<byte>)
      requires |message| <= bufferRcv.Length
      modifies bufferRcv
      ensures Carries(bufferRcv[..], message)
    {
      forall i | 0 <= i < |message| {
        bufferRcv[i] := message[i];
      }
    }

    /** A message is received into the buffer and answered. */
    method Serve(ghost sock: int, message: seq<byte>, ghost request: Request) returns (answer: array<byte>)
      requires Valid() && |message| <= SERVER_BUFF_SIZE && ReadAs(message, request)
      modifies Repr
      ensures Valid() && fresh(Repr - old(Repr)) && fresh(answer)
      ensures asked == old(asked) + [SelectLoop.Ask(sock, request)]
      ensures told == old(told) + [answer[..]]
    {
      hide DataBase.ChatDataBase.Valid, DataBase.ChatDataBase.View, AddressesFit, Says, ChatState.Serve, Told;
      hide RequestOf, ReadAs, After, AnswerType, AnswerCode, IpOf;
      Receive(message);
      Reads(message, bufferRcv[..], request);
      ghost var state := dataBase.View();
      AddressesKeepFitting(state, request);
      var served := GetFromClientAndSendToServer(bufferRcv, dataBase, host);
      answer := served;
      ToldOneMore(told, start, Requests(asked), request, answer[..]);
      assert Requests(asked + [SelectLoop.Ask(sock, request)]) == Requests(asked) + [request];
      asked, told, Repr := asked + [SelectLoop.Ask(sock, request)], told + [answer[..]], Repr + dataBase.Repr;
    }
  }
}
