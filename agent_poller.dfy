/** The asynchronous agent poller (get_value_agent_async and
    handle_socket_operation): one non-blocking socket per item, a pre-flight
    pass that opens and connects them, a tick loop that advances every
    pending socket until no agent is active or the shared deadline has
    passed, and a final sweep that closes sockets and reports timeouts.

    Every system call is an oracle: `Net` says what socket(),
    gethostbyname(), connect(), getsockopt(SO_ERROR), ioctl(FIONREAD),
    zbx_tcp_send(), zbx_tcp_recv_ext() and time() return for each item (and,
    for the calls repeated every tick, for each tick). The per-item state
    lives in parallel arrays, as in the source; `closes` counts the
    zbx_tcp_close calls made on each item's socket. */
module AgentPoller {
  import opened Wrappers
  import opened Common
  import opened AgentChecks

  /** conn_status values; FAIL is the poller's generic failure code, which
      handle_socket_operation also uses as a state. CLOSED is never stored
      (see Tick). */
  datatype ConnStatus = Init | Skipped | SocketCreated | ConnectSent | ReqSent | Closed | Failed

  /** ZBX_SOCKET_ERROR, what socket() returns on failure. */
  const SocketError: int := -1
  /** EINPROGRESS on Linux. */
  const EInProgress: int := 115
  /** ZBX_AGENT_MAX_RESPONSE_TIME; the batch deadline is twice this. */
  const MaxResponseTime: int := 2
  const Budget: int := MaxResponseTime * 2

  datatype ConnectResult = Connected | ConnectError(errno: int)

  /** connect() failed synchronously for a reason other than EINPROGRESS. */
  predicate ConnectFails(c: ConnectResult)
  {
    c.ConnectError? && c.errno != EInProgress
  }

  /** The environment as the poller observes it, item by item. */
  datatype Net = Net(
    socketFd: int -> int,               // socket(): SocketError or a descriptor
    resolves: int -> bool,              // gethostbyname() found the address
    connect: int -> ConnectResult,      // connect() and errno
    sendOk: int -> bool,                // zbx_tcp_send() succeeded
    recv: int -> RecvResult,            // zbx_tcp_recv_ext()
    sockErr: int -> string,             // zbx_socket_strerror() after a failed receive
    sockoptRet: (int, nat) -> int,      // getsockopt() return value, per tick
    soError: (int, nat) -> int,         // the SO_ERROR value it reads, per tick
    pendingBytes: (int, nat) -> int,    // ioctl(FIONREAD) count, per tick
    clock: nat -> int)                  // time(NULL) at each test of the loop condition

  /** socket() yields SocketError or a positive descriptor (descriptor 0 is
      the daemon's standard input and is never handed out). */
  ghost predicate FdOk(net: Net)
  {
    forall i :: net.socketFd(i) == SocketError || net.socketFd(i) > 0
  }

  const MsgNoHost: string := "Cannot get hostname for the ip."
  const MsgConnect: string := "Cannot  connect to the host"
  const MsgSend: string := "Cannot send request to the agent"
  const MsgConnFailed: string := "Connection to the host failed: check firewall rules and agent is running"
  const MsgTimeout: string := "Waiting for responce timed out"
  const MsgSocket: string := "Couldn't create socket"

  /** One item's entries in the parallel arrays: conn_status, the socket
      handle, errcodes, results, and the number of zbx_tcp_close calls. */
  datatype Slot = Slot(status: ConnStatus, sock: int, err: ErrCode, res: AgentResult, closes: nat)

  /** The entries that active_agents counts: every socket that was created
      and connected, until its reply has been read. */
  predicate Live(status: ConnStatus, sock: int)
  {
    status in {SocketCreated, ConnectSent, ReqSent} || (status == Failed && sock != 0)
  }

  function B2N(b: bool): nat
  {
    if b then 1 else 0
  }

  function LiveCount(st: seq<ConnStatus>, sk: seq<int>): nat
    requires |st| == |sk|
  {
    if |st| == 0 then 0 else B2N(Live(st[0], sk[0])) + LiveCount(st[1..], sk[1..])
  }

  /** Changing one entry changes the count by that entry's contribution. */
  lemma {:induction false} LiveCountUpdate(st: seq<ConnStatus>, sk: seq<int>, i: int, c: ConnStatus, h: int)
    requires |st| == |sk| && 0 <= i < |st|
    ensures LiveCount(st[i := c], sk[i := h]) == LiveCount(st, sk) - B2N(Live(st[i], sk[i])) + B2N(Live(c, h))
    ensures Live(st[i], sk[i]) ==> LiveCount(st, sk) >= 1
  {
    if i == 0 {
      assert st[i := c][1..] == st[1..];
      assert sk[i := h][1..] == sk[1..];
    } else {
      assert st[i := c][1..] == st[1..][i - 1 := c];
      assert sk[i := h][1..] == sk[1..][i - 1 := h];
      LiveCountUpdate(st[1..], sk[1..], i - 1, c, h);
    }
  }

  /** A zero count means no entry is live. */
  lemma {:induction false} LiveCountZero(st: seq<ConnStatus>, sk: seq<int>, i: int)
    requires |st| == |sk| && 0 <= i < |st| && LiveCount(st, sk) == 0
    ensures !Live(st[i], sk[i])
  {
    if i > 0 {
      LiveCountZero(st[1..], sk[1..], i - 1);
    }
  }

  /** What each state's shape guarantees about the socket handle and the
      number of close calls so far. */
  predicate Shape(status: ConnStatus, sock: int, closes: nat)
  {
    match status
    case Init => sock == 0 && closes == 0
    case Skipped => (sock == 0 || sock == SocketError) && closes == 0
    case SocketCreated | ConnectSent | ReqSent => sock > 0 && closes == 0
    case Failed => (sock > 0 && closes == 0) || (sock == 0 && closes == 1)
    case Closed => false
  }

  /** handle_socket_operation on one entry: resolve and connect from
      SOCKET_CREATED, send from CONNECT_SENT, and from REQ_SENT store the
      classified reply `reply` (what RecvOutcome makes of the item's
      zbx_tcp_recv_ext result) and close. */
  function HandleSlot(e: Slot, i: int, reply: Outcome, net: Net): (r: Slot)
    ensures e.status == SocketCreated ==>
              if !net.resolves(i) then r == e.(status := Failed, err := ConfigError, res := Msg(MsgNoHost))
              else if ConnectFails(net.connect(i)) then r == e.(status := Failed, err := ConfigError, res := Msg(MsgConnect))
              else r == e.(status := ConnectSent)
    ensures e.status == ConnectSent ==>
              r.status == ReqSent && r.sock == e.sock && r.closes == e.closes &&
              (net.sendOk(i) ==> r == e.(status := ReqSent)) &&
              (!net.sendOk(i) ==> r.err == NetworkError && r.res == Msg(MsgSend))
    ensures e.status == ReqSent ==>
              r.status == Failed && r.sock == 0 && r.closes == e.closes + 1 &&
              Outcome(r.err, r.res) == reply
    ensures e.status !in {SocketCreated, ConnectSent, ReqSent} ==> r == e
    ensures Live(e.status, e.sock) && e.sock != 0 ==> (Live(r.status, r.sock) <==> e.status != ReqSent)
  {
    match e.status
    case SocketCreated => ConnectSlot(e, i, net)
    case ConnectSent =>
      // the FAIL set on a failed send is overwritten by REQ_SENT at once
      if net.sendOk(i) then e.(status := ReqSent)
      else e.(status := ReqSent, err := NetworkError, res := Msg(MsgSend))
    case ReqSent => Slot(Failed, 0, reply.code, reply.result, e.closes + 1)
    case _ => e
  }

  /** The SOCKET_CREATED branch of handle_socket_operation: resolve the
      address, then connect. */
  function ConnectSlot(e: Slot, i: int, net: Net): Slot
  {
    if !net.resolves(i) then e.(status := Failed, err := ConfigError, res := Msg(MsgNoHost))
    else if ConnectFails(net.connect(i)) then e.(status := Failed, err := ConfigError, res := Msg(MsgConnect))
    else e.(status := ConnectSent)
  }

  /** One tick's treatment of one entry. */
  function TickSlot(e: Slot, i: int, t: nat, reply: Outcome, net: Net): (r: Slot)
    ensures e.status in {Skipped, Failed, Closed, Init, SocketCreated} ==> r == e
    ensures e.status == ConnectSent ==>
              (net.sockoptRet(i, t) < 0 ==> r == e) &&
              (net.sockoptRet(i, t) >= 0 && net.soError(i, t) != 0 ==>
                 r == e.(err := NetworkError, res := Msg(MsgConnFailed))) &&
              (net.sockoptRet(i, t) >= 0 && net.soError(i, t) == 0 ==> r.status == ReqSent)
    ensures e.status == ReqSent ==>
              (net.pendingBytes(i, t) == 0 <==> r == e) &&
              (net.pendingBytes(i, t) != 0 ==> r.status == Failed && r.sock == 0 && r.closes == e.closes + 1)
  {
    if e.status == ConnectSent then
      if net.sockoptRet(i, t) < 0 then e
      else if net.soError(i, t) != 0 then e.(err := NetworkError, res := Msg(MsgConnFailed))
      else HandleSlot(e, i, reply, net)
    else if e.status == ReqSent then
      if net.pendingBytes(i, t) == 0 then e else HandleSlot(e, i, reply, net)
    else
      e
  }

  /** The final sweep on one entry: close any socket handle still set, and
      report a timeout for every entry still connecting or waiting. */
  function SweepSlot(e: Slot): (r: Slot)
    ensures r.status == e.status && r.sock == e.sock
    ensures r.closes == e.closes + B2N(e.sock != 0)
    ensures e.status in {ConnectSent, ReqSent} ==> r.err == TimeoutError && r.res == Msg(MsgTimeout)
    ensures e.status !in {ConnectSent, ReqSent} ==> r.err == e.err && r.res == e.res
  {
    var closed := e.(closes := e.closes + B2N(e.sock != 0));
    if e.status in {ReqSent, ConnectSent} then closed.(err := TimeoutError, res := Msg(MsgTimeout))
    else closed
  }

  /** An entry after the pre-flight pass, given the caller's errcode and
      result for it. */
  function PreflightSlot(i: int, item: Item, net: Net, tlsCompiled: bool, programName: string,
                         err0: ErrCode, res0: AgentResult): (r: Slot)
    ensures !item.isAgent ==> r == Slot(Skipped, 0, err0, res0, 0)
    ensures item.isAgent && TlsRefusal(item.tls, tlsCompiled, programName).Some? ==>
              r == Slot(Skipped, 0, ConfigError, Msg(TlsRefusal(item.tls, tlsCompiled, programName).value), 0)
    ensures item.isAgent && TlsRefusal(item.tls, tlsCompiled, programName).None? ==>
              if net.socketFd(i) == SocketError then r == Slot(Skipped, SocketError, ConfigError, Msg(MsgSocket), 0)
              else r.sock == net.socketFd(i) && r.closes == 0 &&
                   (r.status == ConnectSent <==> net.resolves(i) && !ConnectFails(net.connect(i))) &&
                   (r.status != ConnectSent ==> r.status == Failed && r.err == ConfigError)
  {
    if !item.isAgent then Slot(Skipped, 0, err0, res0, 0)
    else match TlsRefusal(item.tls, tlsCompiled, programName)
      case Some(m) => Slot(Skipped, 0, ConfigError, Msg(m), 0)
      case None =>
        var fd := net.socketFd(i);
        if fd == SocketError then Slot(Skipped, SocketError, ConfigError, Msg(MsgSocket), 0)
        else ConnectSlot(Slot(SocketCreated, fd, err0, res0, 0), i, net)
  }

  /** An entry whose reply has been read, classified and closed. */
  function FinishedSlot(reply: Outcome): Slot
  {
    Slot(Failed, 0, reply.code, reply.result, 1)
  }

  /** The entries the tick loop can produce from pre-flight state `p`: an
      entry that did not get as far as CONNECT_SENT is never touched again;
      one that did is still connecting or waiting on its socket, or it is
      finished. */
  ghost predicate Reachable(e: Slot, p: Slot, fin: Slot)
  {
    if p.status == ConnectSent then
      (e.status in {ConnectSent, ReqSent} && e.sock == p.sock && e.closes == 0) || e == fin
    else
      e == p
  }

  /** A tick keeps every entry within the reachable ones. */
  lemma TickReachable(e: Slot, p: Slot, i: int, t: nat, reply: Outcome, net: Net)
    requires Reachable(e, p, FinishedSlot(reply))
    requires p.status in {Skipped, Failed, ConnectSent}
    ensures Reachable(TickSlot(e, i, t, reply, net), p, FinishedSlot(reply))
  {
  }

  /** An entry after the first `n` passes of the tick loop, starting from
      its pre-flight state `p`; the passes keep it within the reachable
      entries. */
  function AfterTicks(p: Slot, i: int, n: nat, reply: Outcome, net: Net): (r: Slot)
    ensures p.status in {Skipped, Failed, ConnectSent} && (p.status == ConnectSent ==> p.closes == 0) ==>
              Reachable(r, p, FinishedSlot(reply))
  {
    if n == 0 then p
    else
      var e := AfterTicks(p, i, n - 1, reply, net);
      if p.status in {Skipped, Failed, ConnectSent} && (p.status == ConnectSent ==> p.closes == 0) then
        TickReachable(e, p, i, n - 1, reply, net);
        TickSlot(e, i, n - 1, reply, net)
      else
        TickSlot(e, i, n - 1, reply, net)
  }

  /** A connect that getsockopt() never reports ready is left as it is by
      every pass, and the sweep reports it as a timeout. */
  lemma {:induction false} NeverReadyTimesOut(p: Slot, i: int, n: nat, reply: Outcome, net: Net)
    requires p.status == ConnectSent
    requires forall t :: 0 <= t < n ==> net.sockoptRet(i, t) < 0
    ensures AfterTicks(p, i, n, reply, net) == p
    ensures SweepSlot(AfterTicks(p, i, n, reply, net)).err == TimeoutError
    ensures SweepSlot(AfterTicks(p, i, n, reply, net)).res == Msg(MsgTimeout)
  {
    if n > 0 {
      NeverReadyTimesOut(p, i, n - 1, reply, net);
    }
  }

  /** A reply read within the first `k` passes is what the caller gets,
      however many passes follow. */
  lemma {:induction false} ReplyKept(p: Slot, i: int, k: nat, n: nat, reply: Outcome, net: Net)
    requires k <= n && AfterTicks(p, i, k, reply, net).status == Failed
    ensures AfterTicks(p, i, n, reply, net) == AfterTicks(p, i, k, reply, net)
    ensures SweepSlot(AfterTicks(p, i, n, reply, net)).err == AfterTicks(p, i, k, reply, net).err
    ensures SweepSlot(AfterTicks(p, i, n, reply, net)).res == AfterTicks(p, i, k, reply, net).res
  {
    if n > k {
      ReplyKept(p, i, k, n - 1, reply, net);
    }
  }

  /** What the caller sees for one item when the batch returns, given the
      pre-flight state `p` and the finished state `fin`: items stopped
      before CONNECT_SENT keep the pre-flight outcome, and their socket, if
      socket() was called, has been closed once; the others have been
      closed once and either carry the classified reply or a timeout. */
  ghost predicate FinalOutcome(p: Slot, fin: Slot, err: ErrCode, res: AgentResult, closes: nat)
  {
    if p.status == ConnectSent then
      closes == 1 && ((err == fin.err && res == fin.res) || (err == TimeoutError && res == Msg(MsgTimeout)))
    else
      err == p.err && res == p.res && closes == B2N(p.sock != 0)
  }

  /** The sweep turns every reachable entry into a final one. */
  lemma SweepFinal(e: Slot, p: Slot, fin: Slot)
    requires Reachable(e, p, fin) && fin.status == Failed && fin.sock == 0 && fin.closes == 1
    requires p.status in {Skipped, Failed, ConnectSent}
    requires p.status == ConnectSent ==> p.sock > 0
    requires p.status != ConnectSent ==> p.closes == 0
    ensures var f := SweepSlot(e); FinalOutcome(p, fin, f.err, f.res, f.closes)
  {
  }

  /** A batch that ended before the deadline had finished every item that
      got as far as CONNECT_SENT, and no item failed in resolving or
      connecting (those stay counted in active_agents until the deadline). */
  ghost predicate Settled(p: Slot, fin: Slot, err: ErrCode, res: AgentResult)
  {
    p.status == Skipped || (p.status == ConnectSent && err == fin.err && res == fin.res)
  }

  /** What the sweep reports for an entry after `n` passes of the tick
      loop from its pre-flight state: a final outcome, and a settled one
      when the entry was no longer live. */
  lemma EntryOutcome(i: int, item: Item, net: Net, tlsCompiled: bool, programName: string,
                     err0: ErrCode, res0: AgentResult, reply: Outcome, n: nat)
    requires net.socketFd(i) == SocketError || net.socketFd(i) > 0
    ensures var p := PreflightSlot(i, item, net, tlsCompiled, programName, err0, res0);
            var e := AfterTicks(p, i, n, reply, net);
            var f := SweepSlot(e);
            FinalOutcome(p, FinishedSlot(reply), f.err, f.res, f.closes) &&
            (!Live(e.status, e.sock) ==> Settled(p, FinishedSlot(reply), f.err, f.res))
  {
    var p := PreflightSlot(i, item, net, tlsCompiled, programName, err0, res0);
    SweepFinal(AfterTicks(p, i, n, reply, net), p, FinishedSlot(reply));
  }

  /** time(NULL) was within the batch's budget at each of the first `n`
      tests of the loop condition. */
  ghost predicate InTime(net: Net, startTime: int, n: nat)
  {
    forall k :: 0 <= k < n ==> net.clock(k) - startTime < Budget
  }

  /** The state of one get_value_agent_async call. */
  class AgentBatch {
    const items: seq<Item>
    const net: Net
    const tlsCompiled: bool
    const programName: string
    const results: array<AgentResult>
    const errcodes: array<ErrCode>
    const s: array<int>
    const connStatus: array<ConnStatus>
    var active: nat
    ghost var closes: seq<nat>
    ghost const err0: seq<ErrCode>
    ghost const res0: seq<AgentResult>
    /** Where the first `n` passes of the tick loop leave entry `i`; a
        name for AfterTicks from the entry's pre-flight state. */
    ghost const expected: (int, nat) -> Slot

    ghost predicate Wf()
      reads this
    {
      && results.Length == |items| && errcodes.Length == |items|
      && s.Length == |items| && connStatus.Length == |items|
      && |closes| == |items| && |err0| == |items| && |res0| == |items|
      && FdOk(net)
      && forall i, n {:trigger AfterTicks(Preflight(i), i, n, Reply(i), net)} :: 0 <= i < |items| ==>
           expected(i, n) == AfterTicks(Preflight(i), i, n, Reply(i), net)
    }

    ghost function SlotAt(i: int): Slot
      requires Wf() && 0 <= i < |items|
      reads this, s, connStatus, errcodes, results
    {
      Slot(connStatus[i], s[i], errcodes[i], results[i], closes[i])
    }

    /** Every entry, in order. */
    ghost function Slots(): (r: seq<Slot>)
      requires Wf()
      reads this, s, connStatus, errcodes, results
      ensures |r| == |items| && forall j :: 0 <= j < |items| ==> r[j] == SlotAt(j)
    {
      seq(|items|, j requires Wf() && 0 <= j < |items| reads this, s, connStatus, errcodes, results => SlotAt(j))
    }

    /** active_agents counts the live entries, and each entry has its
        state's shape. */
    ghost predicate Valid()
      reads this, s, connStatus
    {
      && Wf()
      && active == LiveCount(connStatus[..], s[..])
      && forall i :: 0 <= i < |items| ==> Shape(connStatus[i], s[i], closes[i])
    }

    ghost function Preflight(i: int): Slot
      requires 0 <= i < |items| && |err0| == |items| && |res0| == |items|
    {
      PreflightSlot(i, items[i], net, tlsCompiled, programName, err0[i], res0[i])
    }

    /** The classified reply entry `i` gets once it is read. */
    ghost function Reply(i: int): Outcome
      requires 0 <= i < |items|
    {
      RecvOutcome(net.recv(i), items[i].addr, net.sockErr(i))
    }

    ghost function Fin(i: int): Slot
      requires 0 <= i < |items|
    {
      FinishedSlot(Reply(i))
    }

    /** Every entry is where the first `n` passes of the tick loop leave
        it. */
    ghost predicate AtTick(n: nat)
      requires Wf()
      reads this, s, connStatus, errcodes, results
    {
      forall i :: 0 <= i < |items| ==> SlotAt(i) == expected(i, n)
    }

    /** A pass over entries that were at pass `n` leaves them at pass
        `n + 1`. */
    twostate lemma TickAdvances(n: nat)
      requires old(Wf()) && Wf() && old(AtTick(n))
      requires forall j :: 0 <= j < |items| ==> SlotAt(j) == TickSlot(old(SlotAt(j)), j, n, Reply(j), net)
      ensures AtTick(n + 1)
    {
      forall j | 0 <= j < |items|
        ensures SlotAt(j) == expected(j, n + 1)
      {
        assert old(SlotAt(j)) == expected(j, n) == AfterTicks(Preflight(j), j, n, Reply(j), net);
        assert expected(j, n + 1) == AfterTicks(Preflight(j), j, n + 1, Reply(j), net);
      }
    }

    /** Allocation of the socket and state arrays (zeroed sockets). */
    constructor (items: seq<Item>, results: array<AgentResult>, errcodes: array<ErrCode>,
                 net: Net, tlsCompiled: bool, programName: string)
      requires results.Length == |items| && errcodes.Length == |items| && FdOk(net)
      ensures this.items == items && this.results == results && this.errcodes == errcodes
      ensures this.net == net && this.tlsCompiled == tlsCompiled && this.programName == programName
      ensures fresh(s) && fresh(connStatus)
      ensures err0 == errcodes[..] && res0 == results[..]
      ensures Valid()
      ensures forall i :: 0 <= i < |items| ==> SlotAt(i) == Slot(Init, 0, err0[i], res0[i], 0)
    {
      this.items := items;
      this.results := results;
      this.errcodes := errcodes;
      this.net := net;
      this.tlsCompiled := tlsCompiled;
      this.programName := programName;
      s := new int[|items|](_ => 0);
      connStatus := new ConnStatus[|items|](_ => Init);
      active := 0;
      closes := seq(|items|, _ => 0);
      err0 := errcodes[..];
      res0 := results[..];
      var e0, r0 := errcodes[..], results[..];
      expected := (i: int, n: nat) =>
        if 0 <= i < |items| then AfterTicks(PreflightSlot(i, items[i], net, tlsCompiled, programName, e0[i], r0[i]), i, n,
                              RecvOutcome(net.recv(i), items[i].addr, net.sockErr(i)), net)
        else Slot(Init, 0, Succeed, NoResult, 0);
      new;
      assert forall k :: 0 <= k < |items| ==> !Live(connStatus[..][k], s[..][k]);
      LiveCountNone(connStatus[..], s[..]);
    }

    /** handle_socket_operation for entry `i`. */
    method HandleSocketOperation(i: int)
      requires Valid() && 0 <= i < |items|
      modifies s, connStatus, errcodes, results, this`active, this`closes
      ensures Valid()
      ensures SlotAt(i) == HandleSlot(old(SlotAt(i)), i, Reply(i), net)
      ensures forall j :: 0 <= j < |items| && j != i ==> SlotAt(j) == old(SlotAt(j))
      ensures active == old(active) - B2N(old(connStatus[i]) == ReqSent)
    {
      match connStatus[i] {
        case SocketCreated => Connect(i);
        case ConnectSent => SendRequest(i);
        case ReqSent => ReadReply(i);
        case _ =>
      }
    }

    /** SOCKET_CREATED: resolve the address and start a non-blocking
        connect. A failure leaves the socket open and counted. */
    method Connect(i: int)
      requires Valid() && 0 <= i < |items| && connStatus[i] == SocketCreated
      modifies connStatus, errcodes, results
      ensures Valid()
      ensures SlotAt(i) == HandleSlot(old(SlotAt(i)), i, Reply(i), net)
      ensures forall j :: 0 <= j < |items| && j != i ==> SlotAt(j) == old(SlotAt(j))
    {
      ghost var e0 := SlotAt(i);
      if !net.resolves(i) {
        RecordOutcome(i, ConfigError, Msg(MsgNoHost));
        SetStatus(i, Failed);
      } else if ConnectFails(net.connect(i)) {
        RecordOutcome(i, ConfigError, Msg(MsgConnect));
        SetStatus(i, Failed);
      } else {
        SetStatus(i, ConnectSent);
      }
      assert SlotAt(i) == HandleSlot(e0, i, Reply(i), net);
    }

    /** CONNECT_SENT: send the item key. A failed send is recorded and then
        overwritten by the move to REQ_SENT, which happens either way. */
    method SendRequest(i: int)
      requires Valid() && 0 <= i < |items| && connStatus[i] == ConnectSent
      modifies connStatus, errcodes, results
      ensures Valid()
      ensures SlotAt(i) == HandleSlot(old(SlotAt(i)), i, Reply(i), net)
      ensures forall j :: 0 <= j < |items| && j != i ==> SlotAt(j) == old(SlotAt(j))
    {
      ghost var e0 := SlotAt(i);
      if !net.sendOk(i) {
        RecordOutcome(i, NetworkError, Msg(MsgSend));
        SetStatus(i, Failed);
      }
      SetStatus(i, ReqSent);
      assert SlotAt(i) == HandleSlot(e0, i, Reply(i), net);
    }

    /** REQ_SENT: receive and classify the reply, close the socket and
        stop counting the entry. */
    method ReadReply(i: int)
      requires Valid() && 0 <= i < |items| && connStatus[i] == ReqSent
      modifies s, connStatus, errcodes, results, this`active, this`closes
      ensures Valid()
      ensures SlotAt(i) == HandleSlot(old(SlotAt(i)), i, Reply(i), net)
      ensures forall j :: 0 <= j < |items| && j != i ==> SlotAt(j) == old(SlotAt(j))
      ensures active == old(active) - 1
    {
      ghost var e0 := SlotAt(i);
      var o := RecvOutcome(net.recv(i), items[i].addr, net.sockErr(i));
      RecordOutcome(i, o.code, o.result);
      CloseReplied(i);
      assert SlotAt(i) == HandleSlot(e0, i, Reply(i), net);
    }

    /** Move a live entry that holds a socket to another live state. */
    method SetStatus(i: int, st: ConnStatus)
      requires Valid() && 0 <= i < |items| && s[i] > 0 && closes[i] == 0
      requires Live(connStatus[i], s[i]) && Live(st, s[i]) && st != Closed && st != Init && st != Skipped
      modifies connStatus
      ensures Valid()
      ensures SlotAt(i) == old(SlotAt(i)).(status := st)
      ensures forall j :: 0 <= j < |items| && j != i ==> SlotAt(j) == old(SlotAt(j))
    {
      ghost var st0 := connStatus[..];
      connStatus[i] := st;
      assert connStatus[..] == st0[i := st];
      LiveCountUpdate(st0, s[..], i, st, s[i]);
      assert s[..][i := s[i]] == s[..];
    }

    /** Store an entry's error code and result. */
    method RecordOutcome(i: int, code: ErrCode, res: AgentResult)
      requires Valid() && 0 <= i < |items|
      modifies errcodes, results
      ensures Valid()
      ensures SlotAt(i) == old(SlotAt(i)).(err := code, res := res)
      ensures forall j :: 0 <= j < |items| && j != i ==> SlotAt(j) == old(SlotAt(j))
    {
      errcodes[i] := code;
      results[i] := res;
    }

    /** Close the socket of an entry whose reply was read, mark it failed
        and stop counting it. */
    method CloseReplied(i: int)
      requires Valid() && 0 <= i < |items| && connStatus[i] == ReqSent
      modifies s, connStatus, this`active, this`closes
      ensures Valid()
      ensures SlotAt(i) == old(SlotAt(i)).(status := Failed, sock := 0, closes := old(closes[i]) + 1)
      ensures forall j :: 0 <= j < |items| && j != i ==> SlotAt(j) == old(SlotAt(j))
      ensures active == old(active) - 1
    {
      ghost var st0, sk0 := connStatus[..], s[..];
      LiveCountUpdate(st0, sk0, i, Failed, 0);
      closes := closes[i := closes[i] + 1];
      s[i] := 0;
      connStatus[i] := Failed;
      active := active - 1;
      assert connStatus[..] == st0[i := Failed];
      assert s[..] == sk0[i := 0];
    }

    /** The pre-flight loop: skip non-agent items, refuse unusable TLS
        settings, create a socket and start connecting. */
    method PreFlight()
      requires Valid()
      requires forall i :: 0 <= i < |items| ==> SlotAt(i) == Slot(Init, 0, err0[i], res0[i], 0)
      modifies s, connStatus, errcodes, results, this`active, this`closes
      ensures Valid()
      ensures forall i :: 0 <= i < |items| ==> SlotAt(i) == Preflight(i)
      ensures AtTick(0)
    {
      for i := 0 to |items|
        invariant Valid()
        invariant forall j :: 0 <= j < i ==> SlotAt(j) == Preflight(j)
        invariant forall j :: i <= j < |items| ==> SlotAt(j) == Slot(Init, 0, err0[j], res0[j], 0)
      {
        OpenEntry(i);
      }
      forall j | 0 <= j < |items|
        ensures SlotAt(j) == expected(j, 0)
      {
        assert expected(j, 0) == AfterTicks(Preflight(j), j, 0, Reply(j), net);
      }
    }

    /** One iteration of the pre-flight loop. */
    method OpenEntry(i: int)
      requires Valid() && 0 <= i < |items| && SlotAt(i) == Slot(Init, 0, err0[i], res0[i], 0)
      modifies s, connStatus, errcodes, results, this`active, this`closes
      ensures Valid()
      ensures SlotAt(i) == Preflight(i)
      ensures forall j :: 0 <= j < |items| && j != i ==> SlotAt(j) == old(SlotAt(j))
    {
      // The entry is already in INIT, as the constructor leaves every entry.
      if !items[i].isAgent {
        SetConn(i, Skipped, 0);
      } else {
        match TlsRefusal(items[i].tls, tlsCompiled, programName) {
          case Some(m) =>
            RecordOutcome(i, ConfigError, Msg(m));
            SetConn(i, Skipped, 0);
          case None =>
            OpenSocket(i);
        }
      }
    }

    /** The socket() call and the first handle_socket_operation of an agent
        item whose TLS setting is usable. */
    method OpenSocket(i: int)
      requires Valid() && 0 <= i < |items| && SlotAt(i) == Slot(Init, 0, err0[i], res0[i], 0)
      requires items[i].isAgent && TlsRefusal(items[i].tls, tlsCompiled, programName).None?
      modifies s, connStatus, errcodes, results, this`active, this`closes
      ensures Valid()
      ensures SlotAt(i) == Preflight(i)
      ensures forall j :: 0 <= j < |items| && j != i ==> SlotAt(j) == old(SlotAt(j))
    {
      var fd := net.socketFd(i);
      if fd == SocketError {
        SetConn(i, Skipped, fd);
        RecordOutcome(i, ConfigError, Msg(MsgSocket));
      } else {
        SetConn(i, SocketCreated, fd);
        HandleSocketOperation(i);
      }
    }

    /** Put entry `i` in state `st` with socket handle `sock`; `active_agents`
        follows the entry into or out of the live set. */
    method SetConn(i: int, st: ConnStatus, sock: int)
      requires Valid() && 0 <= i < |items| && Shape(st, sock, closes[i])
      modifies s, connStatus, this`active
      ensures Valid()
      ensures SlotAt(i) == old(SlotAt(i)).(status := st, sock := sock)
      ensures forall j :: 0 <= j < |items| && j != i ==> SlotAt(j) == old(SlotAt(j))
      ensures active == old(active) - B2N(old(Live(connStatus[i], s[i]))) + B2N(Live(st, sock))
    {
      ghost var st0, sk0 := connStatus[..], s[..];
      LiveCountUpdate(st0, sk0, i, st, sock);
      active := active - B2N(Live(connStatus[i], s[i])) + B2N(Live(st, sock));
      s[i] := sock;
      connStatus[i] := st;
      assert connStatus[..] == st0[i := st];
      assert s[..] == sk0[i := sock];
    }

    /** One pass of the tick loop over every entry. */
    method Tick(t: nat)
      requires Valid()
      modifies s, connStatus, errcodes, results, this`active, this`closes
      ensures Valid()
      ensures forall j :: 0 <= j < |items| ==> SlotAt(j) == TickSlot(old(SlotAt(j)), j, t, Reply(j), net)
      ensures old(AtTick(t)) ==> AtTick(t + 1)
    {
      for i := 0 to |items|
        invariant Valid()
        invariant forall j :: 0 <= j < i ==> SlotAt(j) == TickSlot(old(SlotAt(j)), j, t, Reply(j), net)
        invariant forall j :: i <= j < |items| ==> SlotAt(j) == old(SlotAt(j))
      {
        TickEntry(i, t);
      }
      if old(AtTick(t)) {
        TickAdvances(t);
      }
    }

    /** One entry's turn in a tick: finished entries are passed over, a
        connecting one is checked with getsockopt(SO_ERROR), a waiting one
        with FIONREAD, and the socket operation runs when it is ready. */
    method TickEntry(i: int, t: nat)
      requires Valid() && 0 <= i < |items|
      modifies s, connStatus, errcodes, results, this`active, this`closes
      ensures Valid()
      ensures SlotAt(i) == TickSlot(old(SlotAt(i)), i, t, Reply(i), net)
      ensures forall j :: 0 <= j < |items| && j != i ==> SlotAt(j) == old(SlotAt(j))
    {
      var st := connStatus[i];
      if st == ConnectSent {
        if net.sockoptRet(i, t) < 0 {
          // not ready yet
        } else if net.soError(i, t) != 0 {
          MarkConnectFailed(i);
        } else {
          HandleSocketOperation(i);
        }
      } else if st == ReqSent {
        if net.pendingBytes(i, t) != 0 {
          HandleSocketOperation(i);
        }
      }
    }

    /** A connect reported failed by SO_ERROR: the message and
        NETWORK_ERROR are recorded, but the source compares conn_status[i]
        with CLOSED instead of assigning it, so the entry stays in
        CONNECT_SENT. */
    method MarkConnectFailed(i: int)
      requires Valid() && 0 <= i < |items|
      modifies errcodes, results
      ensures Valid()
      ensures SlotAt(i) == old(SlotAt(i)).(err := NetworkError, res := Msg(MsgConnFailed))
      ensures forall j :: 0 <= j < |items| && j != i ==> SlotAt(j) == old(SlotAt(j))
    {
      results[i] := Msg(MsgConnFailed);
      errcodes[i] := NetworkError;
    }

    /** One pass of the loop, stated as progress from pass `t` to pass
        `t + 1`. */
    method Pass(t: nat, ghost startTime: int)
      requires Valid() && AtTick(t)
      requires InTime(net, startTime, t) && net.clock(t) - startTime < Budget
      modifies s, connStatus, errcodes, results, this`active, this`closes
      ensures Valid() && AtTick(t + 1) && InTime(net, startTime, t + 1)
    {
      Tick(t);
    }

    /** The tick loop: runs while some agent is active and the deadline has
        not passed; `ticks` is the number of passes made. */
    method Poll(startTime: int, horizon: nat) returns (ticks: nat)
      requires Valid() && AtTick(0)
      requires net.clock(horizon) - startTime >= Budget
      modifies s, connStatus, errcodes, results, this`active, this`closes
      ensures Valid() && AtTick(ticks)
      ensures active == 0 || net.clock(ticks) - startTime >= Budget
      ensures ticks <= horizon && forall k :: 0 <= k < ticks ==> net.clock(k) - startTime < Budget
    {
      ticks := 0;
      while active > 0 && net.clock(ticks) - startTime < Budget
        invariant Valid() && AtTick(ticks)
        invariant ticks <= horizon && InTime(net, startTime, ticks)
        decreases horizon - ticks
      {
        Pass(ticks, startTime);
        ticks := ticks + 1;
      }
    }

    /** The three phases on a fresh batch: pre-flight, the tick loop and
        the final sweep. Each entry ends as the sweep leaves its state after
        `ticks` passes. */
    method Run(startTime: int, horizon: nat) returns (ticks: nat)
      requires Valid()
      requires forall i :: 0 <= i < |items| ==> SlotAt(i) == Slot(Init, 0, err0[i], res0[i], 0)
      requires net.clock(horizon) - startTime >= Budget
      modifies s, connStatus, errcodes, results, this`active, this`closes
      ensures Wf()
      ensures forall i :: 0 <= i < |items| ==>
                var f := SweepSlot(AfterTicks(Preflight(i), i, ticks, Reply(i), net));
                errcodes[i] == f.err && results[i] == f.res && closes[i] == f.closes
      ensures forall i :: 0 <= i < |items| ==> FinalOutcome(Preflight(i), Fin(i), errcodes[i], results[i], closes[i])
      ensures ticks <= horizon && forall k :: 0 <= k < ticks ==> net.clock(k) - startTime < Budget
      ensures net.clock(ticks) - startTime < Budget ==>
                forall i :: 0 <= i < |items| ==> Settled(Preflight(i), Fin(i), errcodes[i], results[i])
    {
      PreFlight();
      ticks := Poll(startTime, horizon);
      ghost var before := Slots();
      ghost var liveBefore := connStatus[..];
      ghost var socksBefore := s[..];
      Sweep();
      forall i | 0 <= i < |items|
        ensures SlotAt(i) == SweepSlot(AfterTicks(Preflight(i), i, ticks, Reply(i), net))
        ensures FinalOutcome(Preflight(i), Fin(i), errcodes[i], results[i], closes[i])
        ensures net.clock(ticks) - startTime < Budget ==> Settled(Preflight(i), Fin(i), errcodes[i], results[i])
      {
        assert net.socketFd(i) == SocketError || net.socketFd(i) > 0;
        assert before[i] == expected(i, ticks) == AfterTicks(Preflight(i), i, ticks, Reply(i), net);
        EntryOutcome(i, items[i], net, tlsCompiled, programName, err0[i], res0[i], Reply(i), ticks);
        if net.clock(ticks) - startTime < Budget {
          LiveCountZero(liveBefore, socksBefore, i);
        }
      }
    }

    /** The final sweep: close every socket handle still set and time out
        every entry still connecting or waiting. */
    method Sweep()
      requires Wf()
      modifies errcodes, results, this`closes
      ensures Wf()
      ensures forall j :: 0 <= j < |items| ==> SlotAt(j) == SweepSlot(old(SlotAt(j)))
    {
      for i := 0 to |items|
        invariant Wf()
        invariant forall j :: 0 <= j < i ==> SlotAt(j) == SweepSlot(old(SlotAt(j)))
        invariant forall j :: i <= j < |items| ==> SlotAt(j) == old(SlotAt(j))
      {
        if s[i] != 0 {
          closes := closes[i := closes[i] + 1];
        }
        if connStatus[i] == ReqSent || connStatus[i] == ConnectSent {
          results[i] := Msg(MsgTimeout);
          errcodes[i] := TimeoutError;
        }
      }
    }
  }

  /** What get_value_agent_async hands back: FAIL when an allocation
      failed, and otherwise no value at all (the function ends without a
      return statement). */
  datatype AsyncReturn = ReturnedFail | NoReturnValue

  /** get_value_agent_async over `items`, writing `results` and `errcodes`.
      `allocOk` is whether both allocations succeed; `startTime` is the
      time(NULL) taken after the pre-flight pass, and `horizon` a tick by
      which the clock is at least the deadline past it. `closes` counts the
      zbx_tcp_close calls made on each item's socket. */
  method GetValueAgentAsync(items: seq<Item>, results: array<AgentResult>, errcodes: array<ErrCode>,
                            net: Net, tlsCompiled: bool, programName: string, allocOk: bool,
                            startTime: int, horizon: nat)
      returns (ret: AsyncReturn, ticks: nat, ghost closes: seq<nat>)
    requires results.Length == |items| && errcodes.Length == |items| && FdOk(net)
    requires net.clock(horizon) - startTime >= Budget
    modifies results, errcodes
    ensures !allocOk ==> ret == ReturnedFail && results[..] == old(results[..]) && errcodes[..] == old(errcodes[..])
    ensures allocOk ==> ret == NoReturnValue && |closes| == |items|
    ensures allocOk ==> forall i :: 0 <= i < |items| ==>
              var f := SweepSlot(AfterTicks(PreflightSlot(i, items[i], net, tlsCompiled, programName, old(errcodes[i]), old(results[i])),
                                            i, ticks, RecvOutcome(net.recv(i), items[i].addr, net.sockErr(i)), net));
              errcodes[i] == f.err && results[i] == f.res && closes[i] == f.closes
    ensures allocOk ==> forall i :: 0 <= i < |items| ==>
              FinalOutcome(PreflightSlot(i, items[i], net, tlsCompiled, programName, old(errcodes[i]), old(results[i])),
                           FinishedSlot(RecvOutcome(net.recv(i), items[i].addr, net.sockErr(i))), errcodes[i], results[i], closes[i])
    ensures allocOk ==> ticks <= horizon && forall k :: 0 <= k < ticks ==> net.clock(k) - startTime < Budget
    ensures allocOk && net.clock(ticks) - startTime < Budget ==> forall i :: 0 <= i < |items| ==>
              Settled(PreflightSlot(i, items[i], net, tlsCompiled, programName, old(errcodes[i]), old(results[i])),
                      FinishedSlot(RecvOutcome(net.recv(i), items[i].addr, net.sockErr(i))), errcodes[i], results[i])
  {
    if !allocOk {
      return ReturnedFail, 0, [];
    }
    var b := new AgentBatch(items, results, errcodes, net, tlsCompiled, programName);
    ticks := b.Run(startTime, horizon);
    closes := b.closes;
    ret := NoReturnValue;
  }

  lemma {:induction false} LiveCountNone(st: seq<ConnStatus>, sk: seq<int>)
    requires |st| == |sk| && forall k :: 0 <= k < |st| ==> !Live(st[k], sk[k])
    ensures LiveCount(st, sk) == 0
  {
    if |st| > 0 {
      assert forall k :: 0 <= k < |st| - 1 ==> st[1..][k] == st[k + 1] && sk[1..][k] == sk[k + 1];
      LiveCountNone(st[1..], sk[1..]);
    }
  }
}
