/** The ClickHouse history backend's state: each history interface (its
    value type, base URL, pending INSERT body and curl handle) and the one
    writer that queues interfaces with data and posts them on flush.

    libcurl is an oracle: whether curl_easy_init() yields a handle is a
    parameter, and so is the outcome of every transfer in every round of a
    flush. */
module ClickHouseWriter {
  import opened Wrappers
  import opened Common
  import opened HistoryClickHouse

  /** A history storage interface with its ClickHouse data
      (zbx_history_iface_t and zbx_clickhouse_data_t). */
  class HistoryIface {
    const valueType: ValueType
    const baseUrl: string
    const requiresTrends: bool
    /** data->buf: the INSERT statement waiting to be posted. */
    var buf: Option<string>
    /** data->handle is set. */
    var handle: bool

    /** The interface as zbx_history_clickhouse_init leaves it. */
    constructor (valueType: ValueType, configuredUrl: string)
      ensures this.valueType == valueType && baseUrl == BaseUrl(configuredUrl)
      ensures !requiresTrends && buf.None? && !handle
    {
      this.valueType := valueType;
      baseUrl := BaseUrl(configuredUrl);
      requiresTrends := false;
      buf := None;
      handle := false;
    }

    /** clickhouse_close: drop the statement and the curl handle. */
    method Close()
      modifies this
      ensures buf.None? && !handle
    {
      buf := None;
      if handle {
        handle := false;
      }
    }
  }

  const MsgCurlInit: string := "Cannot initialize cURL library"
  const MsgCurlMissing: string := "cURL library support >= 7.28.0 is required for clickhouse history backend"

  /** zbx_history_clickhouse_init. `curlBuilt` is whether the server was
      built with a recent enough libcurl, `curlOk` whether
      curl_global_init() succeeds. */
  method HistoryClickhouseInit(valueType: ValueType, configuredUrl: string, curlBuilt: bool, curlOk: bool)
      returns (ret: ErrCode, error: Option<string>, hist: HistoryIface?)
    ensures !curlBuilt ==> ret == Fail && error == Some(MsgCurlMissing) && hist == null
    ensures curlBuilt && !curlOk ==> ret == Fail && error == Some(MsgCurlInit) && hist == null
    ensures curlBuilt && curlOk ==> ret == Succeed && error.None? && hist != null && fresh(hist)
    ensures hist != null ==> hist.valueType == valueType && hist.baseUrl == BaseUrl(configuredUrl)
                             && !hist.requiresTrends && hist.buf.None? && !hist.handle
  {
    if !curlBuilt {
      return Fail, Some(MsgCurlMissing), null;
    }
    if !curlOk {
      return Fail, Some(MsgCurlInit), null;
    }
    hist := new HistoryIface(valueType, configuredUrl);
    ret, error := Succeed, None;
  }

  /** How a transfer of the multi handle ended: CURLE_OK, an HTTP error
      status (CURLE_HTTP_RETURNED_ERROR) or any other curl error. */
  datatype CurlResult = CurlOk | HttpReturnedError(httpCode: int) | CurlError(code: int)

  /** Whether statement `i` is done after round `r`. It is done when its
      outcome there is not a transport error. It is also done when
      `unread(r)` holds: every transfer of round `r` finished in the first
      curl_multi_perform() call. `running` then equals `previous` (both
      0), so the loop skips curl_multi_info_read() and exits. No outcome of
      that round is read, logged or put on the retry list. */
  predicate Ends(transfer: (nat, nat) -> CurlResult, unread: nat -> bool, r: nat, i: nat)
  {
    unread(r) || !transfer(r, i).CurlError?
  }

  /** The round, from `r` on, in which statement `i` is first done, given
      that it is done by round `horizon`. */
  function Settle(transfer: (nat, nat) -> CurlResult, unread: nat -> bool, i: nat, r: nat, horizon: nat): (s: nat)
    requires r <= horizon && Ends(transfer, unread, horizon, i)
    ensures r <= s <= horizon && Ends(transfer, unread, s, i)
    ensures forall k :: r <= k < s ==> transfer(k, i).CurlError? && !unread(k)
    decreases horizon - r
  {
    if Ends(transfer, unread, r, i) then r else Settle(transfer, unread, i, r + 1, horizon)
  }

  /** A transfer answered with an HTTP error is never sent again. */
  lemma HttpErrorNotRetried(transfer: (nat, nat) -> CurlResult, unread: nat -> bool, i: nat, horizon: nat)
    requires Ends(transfer, unread, horizon, i) && transfer(0, i).HttpReturnedError?
    ensures Settle(transfer, unread, i, 0, horizon) == 0
  {
  }

  /** The send rounds of clickhouse_writer_flush over `n` queued
      statements. Every pending transfer is performed. When the round's
      outcomes are read, those ending in a transport error go on the retry
      list and are performed again in the next round; when they are not
      read (`unread`), nothing is retried. The rounds go on until the retry
      list is empty. `transfer(k, i)` is the outcome of statement `i` in
      round `k`; by round `horizon` every statement is done. The retry list
      is kept as a mask over the queue. */
  method RunRounds(n: nat, transfer: (nat, nat) -> CurlResult, unread: nat -> bool, horizon: nat)
      returns (final: seq<CurlResult>, attempts: seq<nat>, rounds: nat)
    requires forall i :: 0 <= i < n ==> Ends(transfer, unread, horizon, i)
    ensures |final| == n && |attempts| == n
    ensures forall i :: 0 <= i < n ==>
              final[i] == transfer(Settle(transfer, unread, i, 0, horizon), i) &&
              attempts[i] == Settle(transfer, unread, i, 0, horizon) + 1
    ensures forall i :: 0 <= i < n ==>
              (final[i].CurlError? ==> unread(Settle(transfer, unread, i, 0, horizon))) && attempts[i] <= rounds
    ensures rounds <= horizon + 1 && (n > 0 ==> rounds >= 1)
    ensures n > 0 && unread(0) ==> rounds == 1
  {
    var pending := seq(n, _ => true);
    final := seq(n, _ => CurlOk);
    attempts := seq(n, _ => 0);
    rounds := 0;
    while true in pending
      invariant Progress(n, transfer, unread, horizon, pending, final, attempts, rounds)
      invariant rounds <= horizon + 1 && (n > 0 ==> rounds >= 1 || (0 < |pending| && pending[0]))
      invariant unread(0) ==> rounds <= 1
      decreases horizon + 1 - rounds
    {
      ghost var w :| 0 <= w < |pending| && pending[w];
      assert rounds <= Settle(transfer, unread, w, 0, horizon) <= horizon;
      var final1, attempts1, retries := SendRound(pending, final, attempts, rounds, transfer, unread(rounds));
      ProgressStep(n, transfer, unread, horizon, pending, final, attempts, rounds, final1, attempts1, retries);
      pending, final, attempts := retries, final1, attempts1;
      rounds := rounds + 1;
    }
    ProgressDone(n, transfer, unread, horizon, pending, final, attempts, rounds);
  }

  /** The state of the rounds before round `rounds`: exactly the
      statements done in that round or later are pending, each sent once
      per earlier round, and every other statement holds the outcome of the
      round it was done in. */
  ghost predicate Progress(n: nat, transfer: (nat, nat) -> CurlResult, unread: nat -> bool, horizon: nat,
                           pending: seq<bool>, final: seq<CurlResult>, attempts: seq<nat>, rounds: nat)
    requires forall i :: 0 <= i < n ==> Ends(transfer, unread, horizon, i)
  {
    && |pending| == n && |final| == n && |attempts| == n
    && forall i :: 0 <= i < n ==>
         && (pending[i] <==> Settle(transfer, unread, i, 0, horizon) >= rounds)
         && (pending[i] ==> attempts[i] == rounds)
         && (!pending[i] ==> final[i] == transfer(Settle(transfer, unread, i, 0, horizon), i) &&
                             attempts[i] == Settle(transfer, unread, i, 0, horizon) + 1 && attempts[i] <= rounds)
  }

  /** One send round moves the rounds on by one. */
  lemma ProgressStep(n: nat, transfer: (nat, nat) -> CurlResult, unread: nat -> bool, horizon: nat,
                     pending: seq<bool>, final: seq<CurlResult>, attempts: seq<nat>, rounds: nat,
                     final1: seq<CurlResult>, attempts1: seq<nat>, retries: seq<bool>)
    requires forall i :: 0 <= i < n ==> Ends(transfer, unread, horizon, i)
    requires Progress(n, transfer, unread, horizon, pending, final, attempts, rounds)
    requires |final1| == n && |attempts1| == n && |retries| == n
    requires forall k :: 0 <= k < n && pending[k] ==>
               final1[k] == transfer(rounds, k) && attempts1[k] == attempts[k] + 1 &&
               (retries[k] <==> !Ends(transfer, unread, rounds, k))
    requires forall k :: 0 <= k < n && !pending[k] ==>
               final1[k] == final[k] && attempts1[k] == attempts[k] && !retries[k]
    ensures Progress(n, transfer, unread, horizon, retries, final1, attempts1, rounds + 1)
  {
    forall i | 0 <= i < n && pending[i]
      ensures retries[i] <==> Settle(transfer, unread, i, 0, horizon) >= rounds + 1
      ensures !retries[i] ==> final1[i] == transfer(Settle(transfer, unread, i, 0, horizon), i)
    {
      SettleStep(transfer, unread, i, rounds, horizon);
    }
  }

  /** Once nothing is pending, every statement holds the outcome of the
      round it was done in; a transport error is left only by a round whose
      outcomes were not read. */
  lemma ProgressDone(n: nat, transfer: (nat, nat) -> CurlResult, unread: nat -> bool, horizon: nat,
                     pending: seq<bool>, final: seq<CurlResult>, attempts: seq<nat>, rounds: nat)
    requires forall i :: 0 <= i < n ==> Ends(transfer, unread, horizon, i)
    requires Progress(n, transfer, unread, horizon, pending, final, attempts, rounds) && true !in pending
    ensures forall i :: 0 <= i < n ==>
              final[i] == transfer(Settle(transfer, unread, i, 0, horizon), i) &&
              attempts[i] == Settle(transfer, unread, i, 0, horizon) + 1
    ensures forall i :: 0 <= i < n ==>
              (final[i].CurlError? ==> unread(Settle(transfer, unread, i, 0, horizon))) && attempts[i] <= rounds
  {
    forall i | 0 <= i < n
      ensures !pending[i]
    {
      assert pending[i] in pending;
    }
  }

  /** One pass of the send loop: every pending transfer is performed once
      in round `round`. When the round's outcomes are read, those ending in
      a transport error are put on the retry list and the others are done.
      When they are not read (`unread`), all are done. */
  method SendRound(pending: seq<bool>, final0: seq<CurlResult>, attempts0: seq<nat>, round: nat,
                   transfer: (nat, nat) -> CurlResult, unread: bool)
      returns (final: seq<CurlResult>, attempts: seq<nat>, retries: seq<bool>)
    requires |final0| == |pending| && |attempts0| == |pending|
    ensures |final| == |pending| && |attempts| == |pending| && |retries| == |pending|
    ensures forall k :: 0 <= k < |pending| && pending[k] ==>
              final[k] == transfer(round, k) && attempts[k] == attempts0[k] + 1 &&
              (retries[k] <==> transfer(round, k).CurlError? && !unread)
    ensures forall k :: 0 <= k < |pending| && !pending[k] ==>
              final[k] == final0[k] && attempts[k] == attempts0[k] && !retries[k]
  {
    final, attempts := final0, attempts0;
    retries := seq(|pending|, _ => false);
    for i := 0 to |pending|
      invariant |retries| == |pending| && |final| == |pending| && |attempts| == |pending|
      invariant forall k :: 0 <= k < i && pending[k] ==>
                  final[k] == transfer(round, k) && attempts[k] == attempts0[k] + 1 &&
                  (retries[k] <==> transfer(round, k).CurlError? && !unread)
      invariant forall k :: 0 <= k < |pending| && (i <= k || !pending[k]) ==>
                  final[k] == final0[k] && attempts[k] == attempts0[k] && !retries[k]
    {
      if pending[i] {
        var r := transfer(round, i);
        final := final[i := r];
        attempts := attempts[i := attempts[i] + 1];
        if r.CurlError? && !unread {
          retries := retries[i := true];
        }
      }
    }
  }

  /** A statement still pending in round `r` is done in that round exactly
      when that round ends it. */
  lemma SettleStep(transfer: (nat, nat) -> CurlResult, unread: nat -> bool, i: nat, r: nat, horizon: nat)
    requires Ends(transfer, unread, horizon, i) && Settle(transfer, unread, i, 0, horizon) >= r
    ensures !Ends(transfer, unread, r, i) <==> Settle(transfer, unread, i, 0, horizon) >= r + 1
  {
  }

  /** When every round's outcomes are read, no statement is left with a
      transport error: each is sent until it succeeds or gets an HTTP
      error. */
  lemma AllReadNoTransportError(transfer: (nat, nat) -> CurlResult, unread: nat -> bool, i: nat, horizon: nat)
    requires Ends(transfer, unread, horizon, i)
    requires forall k :: 0 <= k <= horizon ==> !unread(k)
    ensures !transfer(Settle(transfer, unread, i, 0, horizon), i).CurlError?
    ensures forall k :: 0 <= k < Settle(transfer, unread, i, 0, horizon) ==> transfer(k, i).CurlError?
  {
  }

  /** The batch writer (zbx_clickhouse_writer_t) and the operations on it. */
  class Writer {
    var initialized: bool
    /** The interfaces queued for the next flush. */
    var ifaces: seq<HistoryIface>
    /** The curl multi handle is set. */
    var multiHandle: bool

    /** The multi handle exists exactly while the writer is initialized,
        and an uninitialized writer holds no interfaces. */
    ghost predicate Valid()
      reads this
    {
      initialized == multiHandle && (!initialized ==> ifaces == [])
    }

    /** The zero-filled static writer. */
    constructor ()
      ensures Valid() && !initialized
    {
      initialized := false;
      ifaces := [];
      multiHandle := false;
    }

    /** clickhouse_writer_init: start an empty queue unless one is
        already open. */
    method Init()
      requires Valid()
      modifies this
      ensures Valid() && initialized
      ensures old(initialized) ==> ifaces == old(ifaces)
      ensures !old(initialized) ==> ifaces == []
    {
      if initialized {
        return;
      }
      ifaces := [];
      multiHandle := true;
      initialized := true;
    }

    /** clickhouse_writer_add_iface: open the writer, obtain a curl handle
        for the interface and queue the interface; without a handle the
        queue is left as it is. `easyOk` is whether curl_easy_init()
        succeeds. */
    method AddIface(hist: HistoryIface, easyOk: bool)
      requires Valid()
      modifies this, hist`handle
      ensures Valid() && initialized
      ensures hist.handle == easyOk
      ensures easyOk ==> ifaces == old(ifaces) + [hist]
      ensures !easyOk ==> ifaces == old(ifaces)
    {
      Init();
      if !easyOk {
        hist.handle := false;
        return;
      }
      hist.handle := true;
      ifaces := ifaces + [hist];
    }

    /** clickhouse_writer_release: close every queued interface, drop the
        queue and the multi handle. */
    method Release()
      requires Valid()
      modifies this, set h | h in ifaces
      ensures Valid() && !initialized && ifaces == []
      ensures forall h :: h in old(ifaces) ==> h.buf.None? && !h.handle
    {
      var queued := ifaces;
      for i := 0 to |queued|
        invariant forall k :: 0 <= k < i ==> queued[k].buf.None? && !queued[k].handle
      {
        queued[i].Close();
      }
      multiHandle := false;
      ifaces := [];
      initialized := false;
    }

    /** clickhouse_writer_flush: nothing to do for a writer that is not
        open; otherwise post every queued statement, retrying transport
        errors round after round, then release the writer. The result is
        always SUCCEED. `final` and `attempts` report each statement's last
        outcome and number of sends. */
    method Flush(transfer: (nat, nat) -> CurlResult, unread: nat -> bool, horizon: nat)
        returns (ret: ErrCode, ghost final: seq<CurlResult>, ghost attempts: seq<nat>)
      requires Valid()
      requires initialized ==> forall i :: 0 <= i < |ifaces| ==> Ends(transfer, unread, horizon, i)
      modifies this, set h | h in ifaces
      ensures ret == Succeed && Valid() && !initialized && ifaces == []
      ensures !old(initialized) ==> final == [] && attempts == []
      ensures old(initialized) ==> |final| == |old(ifaces)| && |attempts| == |old(ifaces)|
      ensures old(initialized) ==> forall i :: 0 <= i < |old(ifaces)| ==>
                final[i] == transfer(Settle(transfer, unread, i, 0, horizon), i) &&
                attempts[i] == Settle(transfer, unread, i, 0, horizon) + 1
      ensures old(initialized) ==> forall i :: 0 <= i < |old(ifaces)| ==>
                final[i].CurlError? ==> unread(Settle(transfer, unread, i, 0, horizon))
      ensures old(initialized) && unread(0) ==> forall i :: 0 <= i < |old(ifaces)| ==>
                final[i] == transfer(0, i) && attempts[i] == 1
      ensures forall h :: h in old(ifaces) ==> h.buf.None? && !h.handle
    {
      if !initialized {
        return Succeed, [], [];
      }
      var rounds;
      final, attempts, rounds := RunRounds(|ifaces|, transfer, unread, horizon);
      Release();
      ret := Succeed;
    }

    /** clickhouse_add_values: build the INSERT statement for the entries
        of the interface's value type; when there is at least one, store it
        with a trailing newline and queue the interface. Returns the number
        of such entries. `table` is the configured table name.

        The statement is written into `data->buf` by zbx_snprintf_alloc()
        with an allocation size of 0. On an empty buffer that allocates a
        fresh one holding the text. A buffer may still be set, because a
        failed curl_easy_init() leaves the interface unqueued and its
        statement in place. Into that buffer a zero size lets only the
        terminating NUL be written, so the statement becomes empty. */
    method AddValues(hist: HistoryIface, table: string, history: seq<History>, easyOk: bool) returns (num: nat)
      requires Valid()
      modifies this, hist`buf, hist`handle
      ensures Valid()
      ensures num == |Matching(hist.valueType, history)|
      ensures num > 0 ==>
                var text := InsertHead(table) + TuplesAsWritten(Matching(hist.valueType, history)) + "\n";
                hist.buf == Some(if old(hist.buf).None? then text else "")
      ensures num > 0 ==> initialized && hist.handle == easyOk &&
                          ifaces == old(ifaces) + (if easyOk then [hist] else [])
      ensures num == 0 ==> hist.buf == old(hist.buf) && hist.handle == old(hist.handle)
                           && ifaces == old(ifaces) && initialized == old(initialized)
    {
      var stmt;
      num, stmt := BuildInsert(table, hist.valueType, history);
      if num > 0 {
        var text := stmt + "\n";
        hist.buf := Some(if hist.buf.None? then text else "");
        AddIface(hist, easyOk);
      }
    }
  }
}
