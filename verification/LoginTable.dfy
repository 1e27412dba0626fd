/**
  The per-client login table of AgentServer. Connections open and close on the I/O threads while the update
  tick handles one request at a time, in several lock sections; every interleaving of sections is a run.
 */
module LoginTable {
  import opened Bytes

  type ClientId = nat

  // ---- Result codes ----

  const EM_LOGIN_FB_SUB_OK: int := 0
  const EM_LOGIN_FB_SUB_FAIL: int := 1
  const EM_LOGIN_FB_SUB_SYSTEM: int := 2
  const EM_LOGIN_FB_SUB_DUP: int := 4
  const EM_LOGIN_FB_SUB_INCORRECT: int := 5
  const EM_LOGIN_FB_SUB_IP_BAN: int := 6
  const EM_LOGIN_FB_SUB_BLOCK: int := 7
  const EM_LOGIN_FB_SUB_RANDOM_PASS: int := 19
  const EM_LOGIN_FB_SUB_BETAKEY: int := 23
  const EM_LOGIN_FB_KR_OK_USE_PASS: int := 27
  const EM_LOGIN_FB_KR_OK_NEW_PASS: int := 28

  datatype LoginSession = LoginSession(userNum: int, userType: int, use2ndPass: int)

  /** The account row: a failed query, no row, or the user's number and type. */
  datatype Account = QueryFailed | NoRow | Row(userNum: int, userType: int)

  /** What the database says to a login: nothing (closed, failed or no return value), or the verdict and the account. */
  datatype Answer = Unavailable | Verified(nReturn: int, account: Account)

  /** The mapping of the verdict, and whether it is a login. */
  function Verdict(nReturn: int): (int, bool)
  {
    if nReturn == 1 || nReturn == 2 || nReturn == 3 then (EM_LOGIN_FB_SUB_OK, true)
    else if nReturn == 30 then (EM_LOGIN_FB_KR_OK_NEW_PASS, true)
    else if nReturn == 31 then (EM_LOGIN_FB_KR_OK_USE_PASS, true)
    else if nReturn == 0 then (EM_LOGIN_FB_SUB_INCORRECT, false)
    else if nReturn == 4 then (EM_LOGIN_FB_SUB_IP_BAN, false)
    else if nReturn == 5 then (EM_LOGIN_FB_SUB_DUP, false)
    else if nReturn == 6 then (EM_LOGIN_FB_SUB_BLOCK, false)
    else if nReturn == 7 then (EM_LOGIN_FB_SUB_RANDOM_PASS, false)
    else if nReturn == 23 then (EM_LOGIN_FB_SUB_BETAKEY, false)
    else (EM_LOGIN_FB_SUB_FAIL, false)
  }

  /** ProcessUserLogin: the code sent to the client, and the account of a successful login. */
  function LoginOutcome(a: Answer): (int, Option<(int, int)>)
  {
    match a
    case Unavailable => (EM_LOGIN_FB_SUB_SYSTEM, None)
    case Verified(n, account) =>
      var (code, loggedIn) := Verdict(n);
      if !loggedIn then (code, None)
      else match account
        case QueryFailed => (EM_LOGIN_FB_SUB_SYSTEM, None)
        case NoRow => (EM_LOGIN_FB_SUB_INCORRECT, None)
        case Row(num, kind) => (code, Some((num, kind)))
  }

  /** The entry a login leaves, if it succeeds. */
  function LoginEntry(a: Answer): Option<LoginSession>
  {
    var (code, account) := LoginOutcome(a);
    match account
    case None => None
    case Some((num, kind)) =>
      Some(LoginSession(num, kind,
        if code == EM_LOGIN_FB_KR_OK_NEW_PASS then 2 else if code == EM_LOGIN_FB_KR_OK_USE_PASS then 1 else 0))
  }

  /** The client is told of success exactly when an entry is made; its PIN flag comes from the verdicts 31 and 30. */
  lemma CodeTellsEntry(a: Answer)
    ensures var code := LoginOutcome(a).0;
            LoginEntry(a).Some? <==>
            code == EM_LOGIN_FB_SUB_OK || code == EM_LOGIN_FB_KR_OK_USE_PASS || code == EM_LOGIN_FB_KR_OK_NEW_PASS
    ensures LoginEntry(a).Some? ==>
              var flag := LoginEntry(a).value.use2ndPass;
              && (flag == 1 <==> a.nReturn == 31) && (flag == 2 <==> a.nReturn == 30) && 0 <= flag <= 2
  {
  }

  /** The returns of the database that are a login. */
  predicate IsLogin(nReturn: int) { nReturn in [1, 2, 3, 30, 31] }

  /** Which code is sent for which answer, each exactly when. */
  lemma LoginCodes(a: Answer)
    ensures var code := LoginOutcome(a).0;
            && (code == 0 <==> a.Verified? && a.nReturn in [1, 2, 3] && a.account.Row?)
            && (code == 27 <==> a.Verified? && a.nReturn == 31 && a.account.Row?)
            && (code == 28 <==> a.Verified? && a.nReturn == 30 && a.account.Row?)
            && (code == 2 <==> a.Unavailable? || (IsLogin(a.nReturn) && a.account.QueryFailed?))
            && (code == 5 <==> a.Verified? && (a.nReturn == 0 || (IsLogin(a.nReturn) && a.account.NoRow?)))
            && (code == 6 <==> a.Verified? && a.nReturn == 4) && (code == 4 <==> a.Verified? && a.nReturn == 5)
            && (code == 7 <==> a.Verified? && a.nReturn == 6) && (code == 19 <==> a.Verified? && a.nReturn == 7)
            && (code == 23 <==> a.Verified? && a.nReturn == 23)
            && (code == 1 <==> a.Verified? && a.nReturn !in [0, 1, 2, 3, 4, 5, 6, 7, 23, 30, 31])
  {
  }

  /** A login succeeds exactly with one of these returns and a row, and its entry holds the row's number and type. */
  lemma EntryIsRow(a: Answer)
    ensures LoginEntry(a).Some? <==> a.Verified? && IsLogin(a.nReturn) && a.account.Row?
    ensures LoginEntry(a).Some? ==>
              var entry := LoginEntry(a).value;
              && entry.userNum == a.account.userNum && entry.userType == a.account.userType
              && entry.use2ndPass == if a.nReturn == 31 then 1 else if a.nReturn == 30 then 2 else 0
  {
  }

  /** The database's answer to a PIN: accepted only as the result 0 of a call that went through. */
  datatype PinAnswer = PinAnswer(ok: bool, spResult: int)

  predicate Accepts(p: PinAnswer) { p.ok && p.spResult == 0 }

  // ---- The table and its sections ----

  /** Where the tick is in the handling of a request whose session it has found. */
  datatype Tick =
    | Idle
    | InLogin(id: ClientId, answer: Answer)
    | InPin(id: ClientId, reply: PinAnswer)       // before the PIN flag is read
    | PinPending(id: ClientId, reply: PinAnswer)  // after it was found set

  /** What has happened, in the order of effect. */
  datatype Event =
    | Accepted(id: ClientId)
    | Closed(id: ClientId)
    | LoginDone(id: ClientId, answer: Answer)
    | PinDone(id: ClientId, reply: PinAnswer)

  datatype Table = Table(next: ClientId, sessions: set<ClientId>, logins: map<ClientId, LoginSession>,
                         tick: Tick, log: seq<Event>)

  const INITIAL: Table := Table(0, {}, map[], Idle, [])

  datatype Action =
    | Accept                                        // OnAccept
    | Close(id: ClientId)                           // the close handler of a session, which may run twice
    | BeginLogin(id: ClientId, answer: Answer)      // dispatch finds the session, or drops the message
    | EndLogin                                      // the entry of a successful login is stored
    | BeginPin(id: ClientId, reply: PinAnswer)
    | ReadPinFlag                                   // without a pending PIN the request is ignored
    | EndPin                                        // an accepted PIN clears the flag if there still is an entry

  function PinFlag(t: Table, id: ClientId): int
  {
    if id in t.logins then t.logins[id].use2ndPass else 0
  }

  predicate Enabled(t: Table, a: Action)
  {
    match a
    case Accept => true
    case Close(id) => id <= t.next
    case BeginLogin(_, _) => t.tick == Idle
    case EndLogin => t.tick.InLogin?
    case BeginPin(_, _) => t.tick == Idle
    case ReadPinFlag => t.tick.InPin?
    case EndPin => t.tick.PinPending?
  }

  function Apply(t: Table, a: Action): Table
    requires Enabled(t, a)
  {
    match a
    case Accept =>
      var id := t.next + 1;
      t.(next := id, sessions := t.sessions + {id}, log := t.log + [Accepted(id)])
    case Close(id) =>
      t.(sessions := t.sessions - {id}, logins := t.logins - {id}, log := t.log + [Closed(id)])
    case BeginLogin(id, answer) => if id in t.sessions then t.(tick := InLogin(id, answer)) else t
    case EndLogin =>
      var id, entry := t.tick.id, LoginEntry(t.tick.answer);
      t.(tick := Idle, log := t.log + [LoginDone(id, t.tick.answer)],
         logins := if entry.Some? then t.logins[id := entry.value] else t.logins)
    case BeginPin(id, reply) => if id in t.sessions then t.(tick := InPin(id, reply)) else t
    case ReadPinFlag =>
      t.(tick := if PinFlag(t, t.tick.id) == 0 then Idle else PinPending(t.tick.id, t.tick.reply))
    case EndPin =>
      var id := t.tick.id;
      t.(tick := Idle, log := t.log + [PinDone(id, t.tick.reply)],
         logins := if Accepts(t.tick.reply) && id in t.logins then t.logins[id := t.logins[id].(use2ndPass := 0)]
                   else t.logins)
  }

  function Run(t: Table, acts: seq<Action>): Option<Table>
    decreases |acts|
  {
    if acts == [] then Some(t)
    else if Enabled(t, acts[0]) then Run(Apply(t, acts[0]), acts[1..])
    else None
  }

  // ---- What the history says about one client ----

  predicate Succeeds(e: Event, id: ClientId) { e.LoginDone? && e.id == id && LoginEntry(e.answer).Some? }

  /** The last successful login of a client that has not been closed since. */
  ghost predicate IsLastLogin(log: seq<Event>, id: ClientId, k: nat)
  {
    && k < |log| && Succeeds(log[k], id)
    && forall j :: k < j < |log| ==> !Succeeds(log[j], id) && log[j] != Closed(id)
  }

  ghost predicate PinAcceptedSince(log: seq<Event>, id: ClientId, k: nat)
  {
    exists j :: k < j < |log| && log[j].PinDone? && log[j].id == id && Accepts(log[j].reply)
  }

  /** The entry that login k should have: its account, and its PIN flag unless a PIN was accepted since. */
  ghost function EntryOf(log: seq<Event>, id: ClientId, k: nat): LoginSession
    requires IsLastLogin(log, id, k)
  {
    var e := LoginEntry(log[k].answer).value;
    if PinAcceptedSince(log, id, k) then e.(use2ndPass := 0) else e
  }

  /** The table agrees with the history for a client. */
  ghost predicate Agrees(t: Table, id: ClientId)
  {
    && (id in t.logins <==> exists k :: IsLastLogin(t.log, id, k))
    && (forall k :: IsLastLogin(t.log, id, k) ==> id in t.logins && t.logins[id] == EntryOf(t.log, id, k))
  }

  /** Connected clients are those accepted and not closed; a request in progress is of a client once accepted. */
  ghost predicate Inv(t: Table)
  {
    && (forall id :: id in t.sessions <==> Accepted(id) in t.log && Closed(id) !in t.log)
    && (forall e <- t.log :: e.id <= t.next)
    && (t.tick.Idle? || Accepted(t.tick.id) in t.log)
    && (forall e <- t.log :: e.LoginDone? ==> Accepted(e.id) in t.log)
    && forall id :: Agrees(t, id)
  }

  /** An event that is neither a success nor a close of the client leaves its last login where it was. */
  lemma LastLoginStays(log: seq<Event>, e: Event, id: ClientId, k: nat)
    requires !Succeeds(e, id) && e != Closed(id)
    ensures IsLastLogin(log + [e], id, k) <==> IsLastLogin(log, id, k)
  {
    var now := log + [e];
    assert forall j :: 0 <= j < |log| ==> now[j] == log[j];
    if k < |log| {
      assert now[|log|] == e;
    }
  }

  lemma PinSinceStays(log: seq<Event>, e: Event, id: ClientId, k: nat)
    requires k < |log|
    ensures PinAcceptedSince(log + [e], id, k) <==>
            PinAcceptedSince(log, id, k) || (e.PinDone? && e.id == id && Accepts(e.reply))
  {
    var now := log + [e];
    assert now[|log|] == e;
    assert forall j :: 0 <= j < |log| ==> now[j] == log[j];
  }

  /** An event of another client, or one without effect, changes neither the entry nor what it should be. */
  lemma AgreementStays(t: Table, t': Table, e: Event, id: ClientId)
    requires Agrees(t, id)
    requires t'.log == t.log + [e]
    requires id in t'.logins <==> id in t.logins
    requires id in t.logins ==> t'.logins[id] == t.logins[id]
    requires !Succeeds(e, id) && e != Closed(id)
    requires e.PinDone? && e.id == id ==> !Accepts(e.reply) || id !in t.logins
    ensures Agrees(t', id)
  {
    hide IsLastLogin, PinAcceptedSince, Succeeds;
    forall k: nat
      ensures IsLastLogin(t'.log, id, k) <==> IsLastLogin(t.log, id, k)
      ensures IsLastLogin(t.log, id, k) ==> EntryOf(t'.log, id, k) == EntryOf(t.log, id, k)
    {
      LastLoginStays(t.log, e, id, k);
      if IsLastLogin(t.log, id, k) {
        LastLoginBound(t.log, id, k);
        PinSinceStays(t.log, e, id, k);
        assert t'.log[k] == t.log[k];
      }
    }
  }

  lemma LastLoginBound(log: seq<Event>, id: ClientId, k: nat)
    requires IsLastLogin(log, id, k)
    ensures k < |log|
  {
  }

  /** A success of the client is its last login, with its own entry. */
  lemma LoginAgrees(t: Table, t': Table, e: Event, id: ClientId)
    requires Succeeds(e, id)
    requires t'.log == t.log + [e]
    requires id in t'.logins && t'.logins[id] == LoginEntry(e.answer).value
    ensures Agrees(t', id)
  {
    var n := |t.log|;
    assert t'.log[n] == e;
    assert IsLastLogin(t'.log, id, n);
    forall k: nat | IsLastLogin(t'.log, id, k)
      ensures k == n
    {
    }
  }

  /** After a close there is no last login. */
  lemma CloseAgrees(t: Table, t': Table, id: ClientId)
    requires t'.log == t.log + [Closed(id)]
    requires id !in t'.logins
    ensures Agrees(t', id)
  {
    assert t'.log[|t.log|] == Closed(id);
  }

  /** An accepted PIN clears the flag of the last login. */
  lemma PinAgrees(t: Table, t': Table, e: Event, id: ClientId)
    requires Agrees(t, id) && id in t.logins
    requires e.PinDone? && e.id == id && Accepts(e.reply)
    requires t'.log == t.log + [e]
    requires id in t'.logins && t'.logins[id] == t.logins[id].(use2ndPass := 0)
    ensures Agrees(t', id)
  {
    hide IsLastLogin, PinAcceptedSince;
    forall k: nat
      ensures IsLastLogin(t'.log, id, k) <==> IsLastLogin(t.log, id, k)
      ensures IsLastLogin(t.log, id, k) ==> EntryOf(t'.log, id, k) == EntryOf(t.log, id, k).(use2ndPass := 0)
    {
      LastLoginStays(t.log, e, id, k);
      if IsLastLogin(t.log, id, k) {
        LastLoginBound(t.log, id, k);
        PinSinceStays(t.log, e, id, k);
        assert t'.log[k] == t.log[k];
      }
    }
  }

  /** Every step keeps the agreement, for the client it concerns and for all others. */
  lemma StepAgrees(t: Table, a: Action, id: ClientId)
    requires Inv(t) && Enabled(t, a)
    ensures Agrees(Apply(t, a), id)
  {
    hide EntryOf, IsLastLogin;
    var t' := Apply(t, a);
    assert Agrees(t, id);
    match a
    case Accept => AgreementStays(t, t', Accepted(t.next + 1), id);
    case Close(c) =>
      if c == id {
        CloseAgrees(t, t', id);
      } else {
        AgreementStays(t, t', Closed(c), id);
      }
    case EndLogin =>
      var e := LoginDone(t.tick.id, t.tick.answer);
      if Succeeds(e, id) {
        LoginAgrees(t, t', e, id);
      } else {
        AgreementStays(t, t', e, id);
      }
    case EndPin =>
      var e := PinDone(t.tick.id, t.tick.reply);
      if e.id == id && Accepts(e.reply) && id in t.logins {
        PinAgrees(t, t', e, id);
      } else {
        AgreementStays(t, t', e, id);
      }
    case _ => assert t'.log == t.log && t'.logins == t.logins;
  }

  lemma StepKeepsInv(t: Table, a: Action)
    requires Inv(t) && Enabled(t, a)
    ensures Inv(Apply(t, a))
  {
    hide Agrees;
    forall id: ClientId
      ensures Agrees(Apply(t, a), id)
    {
      StepAgrees(t, a, id);
    }
    SessionsStay(t, a);
  }

  lemma SessionsStay(t: Table, a: Action)
    requires Inv(t) && Enabled(t, a)
    ensures var t' := Apply(t, a);
            && (forall id :: id in t'.sessions <==> Accepted(id) in t'.log && Closed(id) !in t'.log)
            && (forall e <- t'.log :: e.id <= t'.next)
            && (t'.tick.Idle? || Accepted(t'.tick.id) in t'.log)
            && (forall e <- t'.log :: e.LoginDone? ==> Accepted(e.id) in t'.log)
  {
    hide Agrees, LoginEntry;
    var t' := Apply(t, a);
    if a.Accept? {
      assert Closed(t.next + 1) !in t.log;
    }
  }

  lemma {:induction false} RunKeepsInv(t: Table, acts: seq<Action>)
    requires Inv(t) && Run(t, acts).Some?
    ensures Inv(Run(t, acts).value)
    decreases |acts|
  {
    hide Inv, Apply;
    if acts != [] {
      StepKeepsInv(t, acts[0]);
      RunKeepsInv(Apply(t, acts[0]), acts[1..]);
    }
  }

  /**
    In every run and for every client: there is an entry exactly if the client has a successful login that no
    close has followed, and then it is the account of the last such login, with the PIN flag 1 or 2 of its
    verdict unless a PIN of this client has been accepted since. Nothing else ever changes it.
   */
  lemma TableRefinesHistory(acts: seq<Action>, id: ClientId)
    requires Run(INITIAL, acts).Some?
    ensures Agrees(Run(INITIAL, acts).value, id)
  {
    RunKeepsInv(INITIAL, acts);
  }

  /** A successful login in the history: what the database returned and the account it named. */
  ghost predicate LoggedInAt(log: seq<Event>, id: ClientId, k: nat, n: int, num: int, kind: int)
  {
    k < |log| && log[k] == LoginDone(id, Verified(n, Row(num, kind))) && n in [1, 2, 3, 30, 31]
  }

  /** Nothing after position k closes the client or logs it in again. */
  ghost predicate LastOf(log: seq<Event>, id: ClientId, k: nat)
  {
    && (forall j :: k < j < |log| ==> log[j] != Closed(id))
    && (forall j: nat, n, num, kind :: j > k ==> !LoggedInAt(log, id, j, n, num, kind))
  }

  lemma SuccessIsLogin(log: seq<Event>, id: ClientId, j: nat)
    requires j < |log|
    ensures Succeeds(log[j], id) ==>
              var a := log[j].answer;
              && a.Verified? && a.account.Row?
              && LoggedInAt(log, id, j, a.nReturn, a.account.userNum, a.account.userType)
  {
    if Succeeds(log[j], id) {
      EntryIsRow(log[j].answer);
    }
  }

  /**
    The entry of a client, read off the events alone. After a login that the database answered with the row
    (num, kind), and that is the last one and not followed by a close, the entry is that number and type. Its flag
    is 1 for the return 31 and 2 for 30, until a PIN answer of 0 arrives, and otherwise 0.
   */
  lemma EntryIsAccount(acts: seq<Action>, id: ClientId, k: nat, n: int, num: int, kind: int)
    requires Run(INITIAL, acts).Some?
    requires LoggedInAt(Run(INITIAL, acts).value.log, id, k, n, num, kind)
    requires LastOf(Run(INITIAL, acts).value.log, id, k)
    ensures var t := Run(INITIAL, acts).value;
            var accepted :=
              exists j :: k < j < |t.log| && t.log[j].PinDone? && t.log[j].id == id
                          && t.log[j].reply.ok && t.log[j].reply.spResult == 0;
            && id in t.logins && t.logins[id].userNum == num && t.logins[id].userType == kind
            && t.logins[id].use2ndPass == if accepted then 0 else if n == 31 then 1 else if n == 30 then 2 else 0
  {
    hide Run;
    TableRefinesHistory(acts, id);
    var t := Run(INITIAL, acts).value;
    EntryIsRow(t.log[k].answer);
    forall j | k < j < |t.log|
      ensures !Succeeds(t.log[j], id) && t.log[j] != Closed(id)
    {
      SuccessIsLogin(t.log, id, j);
    }
    assert IsLastLogin(t.log, id, k);
  }

  /** And every entry comes from such a login. */
  lemma EntryHasLogin(acts: seq<Action>, id: ClientId) returns (k: nat, n: int, num: int, kind: int)
    requires Run(INITIAL, acts).Some? && id in Run(INITIAL, acts).value.logins
    ensures LoggedInAt(Run(INITIAL, acts).value.log, id, k, n, num, kind)
    ensures LastOf(Run(INITIAL, acts).value.log, id, k)
  {
    hide Run;
    TableRefinesHistory(acts, id);
    var t := Run(INITIAL, acts).value;
    k :| IsLastLogin(t.log, id, k);
    EntryIsRow(t.log[k].answer);
    var a := t.log[k].answer;
    n, num, kind := a.nReturn, a.account.userNum, a.account.userType;
    forall j: nat, m, u, v | LoggedInAt(t.log, id, j, m, u, v)
      ensures j <= k
    {
      EntryIsRow(t.log[j].answer);
      assert Succeeds(t.log[j], id);
    }
  }

  /**
    An entry can outlive its client. For an entry in the table, the client is gone exactly when the login that
    made the entry took effect after the client's close.
   */
  lemma StaleExactly(acts: seq<Action>, id: ClientId, k: nat)
    requires Run(INITIAL, acts).Some?
    requires IsLastLogin(Run(INITIAL, acts).value.log, id, k)
    ensures var t := Run(INITIAL, acts).value;
            id !in t.sessions <==> Closed(id) in t.log[..k]
  {
    RunKeepsInv(INITIAL, acts);
    var t := Run(INITIAL, acts).value;
    assert t.log == t.log[..k] + t.log[k..];
    assert Closed(id) !in t.log[k..];
    assert t.log[k] in t.log;
  }

  /**
    The test that is missing: of all steps only the storing of an entry can make an entry of a closed client,
    and it does so exactly when the login succeeded and the client is no longer connected at that moment.
   */
  lemma StepKeepsConnectedExactly(t: Table, a: Action)
    requires Enabled(t, a) && t.logins.Keys <= t.sessions
    ensures var t' := Apply(t, a);
            t'.logins.Keys <= t'.sessions <==>
            (a.EndLogin? ==> t.tick.id in t.sessions || LoginEntry(t.tick.answer) == None)
  {
    var t' := Apply(t, a);
    if a.EndLogin? && LoginEntry(t.tick.answer).Some? {
      assert t'.logins.Keys == t.logins.Keys + {t.tick.id};
    }
  }

  /** And it happens: the connection drops while the tick is handling the login. */
  lemma StaleHappens()
    ensures exists acts :: Run(INITIAL, acts).Some? &&
              !(Run(INITIAL, acts).value.logins.Keys <= Run(INITIAL, acts).value.sessions)
  {
    var answer := Verified(1, Row(7, 0));
    var t1 := Apply(INITIAL, Accept);
    var t2 := Apply(t1, BeginLogin(1, answer));
    var t3 := Apply(t2, Close(1));
    var t4 := Apply(t3, EndLogin);
    assert 1 in t4.logins && 1 !in t4.sessions;
    assert Run(t4, []) == Some(t4);
    assert Run(t3, [EndLogin]) == Some(t4);
    assert Run(t2, [Close(1), EndLogin]) == Some(t4) by {
      assert [Close(1), EndLogin][1..] == [EndLogin];
    }
    assert Run(t1, [BeginLogin(1, answer), Close(1), EndLogin]) == Some(t4) by {
      assert [BeginLogin(1, answer), Close(1), EndLogin][1..] == [Close(1), EndLogin];
    }
    var acts := [Accept, BeginLogin(1, answer), Close(1), EndLogin];
    assert acts[1..] == [BeginLogin(1, answer), Close(1), EndLogin];
    assert Run(INITIAL, acts) == Some(t4);
  }

  // ---- The server ----

  const EM_LOGIN_FB_SUB_PASS_OK: int := 20

  /** The result code of a PIN request that was pending. */
  function PinCode(p: PinAnswer): int
  {
    if !p.ok then EM_LOGIN_FB_SUB_FAIL
    else if p.spResult == 0 then EM_LOGIN_FB_SUB_OK
    else if p.spResult == 2 then EM_LOGIN_FB_SUB_PASS_OK
    else EM_LOGIN_FB_SUB_FAIL
  }

  /** Which code is sent for which PIN answer. */
  lemma PinCodes(p: PinAnswer)
    ensures PinCode(p) == 0 <==> p.ok && p.spResult == 0
    ensures PinCode(p) == 20 <==> p.ok && p.spResult == 2
    ensures PinCode(p) == 1 <==> !p.ok || p.spResult !in [0, 2]
  {
  }

  /** A login handled without interruption. */
  function LoggedIn(t: Table, id: ClientId, answer: Answer): Table
    requires t.tick == Idle && id in t.sessions
  {
    Apply(Apply(t, BeginLogin(id, answer)), EndLogin)
  }

  /** A PIN request handled without interruption. */
  function PinChecked(t: Table, id: ClientId, reply: PinAnswer): Table
    requires t.tick == Idle && id in t.sessions
  {
    var asked := Apply(Apply(t, BeginPin(id, reply)), ReadPinFlag);
    if asked.tick.PinPending? then Apply(asked, EndPin) else asked
  }

  class AgentServer {
    var nextClientId: ClientId
    var sessions: set<ClientId>
    var loginSessions: map<ClientId, LoginSession>

    /** The table of the fields, with its history. */
    ghost var table: Table

    ghost predicate Valid()
      reads this
    {
      table.next == nextClientId && table.sessions == sessions && table.logins == loginSessions
    }

    constructor ()
      ensures Valid() && table == INITIAL
    {
      nextClientId, sessions, loginSessions := 0, {}, map[];
      table := INITIAL;
    }

    method OnAccept() returns (clientId: ClientId)
      requires Valid()
      modifies this
      ensures Valid() && table == Apply(old(table), Accept)
      ensures clientId == table.next == old(nextClientId) + 1 && clientId in sessions
    {
      nextClientId := nextClientId + 1;
      clientId := nextClientId;
      sessions := sessions + {clientId};
      table := Apply(table, Accept);
    }

    /** The handler that a session calls when its link drops. */
    method OnClose(id: ClientId)
      requires Valid() && id <= nextClientId
      modifies this
      ensures Valid() && table == Apply(old(table), Close(id))
    {
      sessions := sessions - {id};
      loginSessions := loginSessions - {id};
      table := Apply(table, Close(id));
    }

    /** A login request with the database's answer; the code sent back, or none for an unknown client. */
    method HandleLogin(id: ClientId, validName: bool, answer: Answer) returns (code: Option<int>)
      requires Valid() && table.tick == Idle
      modifies this
      ensures Valid()
      ensures table == if id in old(sessions) && validName then LoggedIn(old(table), id, answer) else old(table)
      ensures code == if id !in old(sessions) then None
                      else if validName then Some(LoginOutcome(answer).0) else Some(EM_LOGIN_FB_SUB_INCORRECT)
    {
      if id !in sessions {
        return None;
      }
      code := Some(EM_LOGIN_FB_SUB_INCORRECT);
      if validName {
        var (errCode, account) := LoginOutcome(answer);
        code := Some(errCode);
        if account.Some? {
          var use2nd := 0;
          if errCode == EM_LOGIN_FB_KR_OK_USE_PASS {
            use2nd := 1;
          }
          if errCode == EM_LOGIN_FB_KR_OK_NEW_PASS {
            use2nd := 2;
          }
          loginSessions := loginSessions[id := LoginSession(account.value.0, account.value.1, use2nd)];
        }
        table := LoggedIn(table, id, answer);
      }
    }

    /** A PIN request with the database's answer; the code sent back, or none if no PIN is pending. */
    method HandlePassCheck(id: ClientId, reply: PinAnswer) returns (code: Option<int>)
      requires Valid() && table.tick == Idle
      modifies this
      ensures Valid()
      ensures table == if id in old(sessions) then PinChecked(old(table), id, reply) else old(table)
      ensures code == if id in old(sessions) && PinFlag(old(table), id) != 0 then Some(PinCode(reply)) else None
    {
      if id !in sessions {
        return None;
      }
      table := PinChecked(table, id, reply);
      var use2nd := if id in loginSessions then loginSessions[id].use2ndPass else 0;
      if use2nd == 0 {
        return None;
      }
      if reply.ok && reply.spResult == 0 {
        loginSessions := loginSessions[id := loginSessions[id].(use2ndPass := 0)];
      }
      code := Some(PinCode(reply));
    }
  }
}
