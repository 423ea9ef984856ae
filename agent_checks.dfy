/** The Zabbix agent check: outcome codes, the agent's reply and how it is
    classified, and the one-target blocking poll (get_value_agent).

    Sockets, the alarm and the TLS layer are not modelled; what they report
    to the poller is handed in as parameters. */
module AgentChecks {
  import opened CStrings
  import opened Wrappers
  import opened Common

  /** What an AGENT_RESULT holds once the poller has written it. */
  datatype AgentResult = NoResult | Msg(msg: string) | TextValue(text: string)

  /** A return code together with the result it came with. */
  datatype Outcome = Outcome(code: ErrCode, result: AgentResult)

  /** The host's connection security setting (host.tls_connect). */
  datatype TlsConnect = Unencrypted | TlsCert | TlsPsk | TlsOther(raw: int)

  /** One item to poll: item type check, interface address, port and key. */
  datatype Item = Item(isAgent: bool, tls: TlsConnect, addr: string, port: int, key: string)

  /** What zbx_tcp_recv_ext reports: FAIL, or the received length together
      with the socket buffer and its read_bytes counter. */
  datatype RecvResult = RecvFail | Received(len: nat, buffer: seq<char>, readBytes: int)

  const NotSupportedToken: string := "ZBX_NOTSUPPORTED"
  const ErrorToken: string := "ZBX_ERROR"
  /** sizeof(ZBX_NOTSUPPORTED): the token and its terminating NUL. */
  const NotSupportedSize: nat := |NotSupportedToken| + 1

  const RTrimSet: set<char> := {' ', '\r', '\n'}
  const LTrimSet: set<char> := {' '}

  const MsgNotSupported: string := "Not supported by Zabbix Agent"
  const MsgAgentError: string := "Zabbix Agent non-critical error"
  const MsgInvalidTls: string := "Invalid TLS connection parameters."

  function MsgEmptyResponse(addr: string): string
  {
    "Received empty response from Zabbix Agent at [" + addr
      + "]. Assuming that agent dropped connection because of access permissions."
  }

  function MsgGetValueFailed(sockErr: string): string
  {
    "Get value from agent failed: " + sockErr
  }

  const MsgTlsNotCompiledHead: string :=
    "A TLS connection is configured to be used with agent but support for TLS was not compiled into "

  function MsgTlsNotCompiled(programName: string): string
  {
    MsgTlsNotCompiledHead + programName + "."
  }

  /** The reply text as the poller compares it: the C string with trailing
      spaces, CRs and LFs and then leading spaces removed. */
  function Trimmed(s: string): string
  {
    LTrimmed(RTrimmed(s, RTrimSet), LTrimSet)
  }

  /** The socket buffer after the poller's in-place trimming. */
  function TrimBuffer(buf: seq<char>): (b: seq<char>)
    ensures |b| == |buf| && CStr(b) == Trimmed(CStr(buf))
  {
    LTrimBuffer(RTrimBuffer(buf, RTrimSet), LTrimSet)
  }

  /** The classification of a received reply: the not-supported token, then
      the error token, then an empty reception, and otherwise a text value.
      The not-supported message is the C string sizeof(ZBX_NOTSUPPORTED)
      bytes into the trimmed buffer when more than that many bytes were read. */
  function Classify(buf: seq<char>, receivedLen: nat, readBytes: int, addr: string): (r: Outcome)
    ensures Trimmed(CStr(buf)) == NotSupportedToken ==>
              r.code == NotSupported &&
              r.result == Msg(if NotSupportedSize < readBytes then CStrAt(TrimBuffer(buf), NotSupportedSize)
                              else MsgNotSupported)
    ensures Trimmed(CStr(buf)) == ErrorToken ==> r == Outcome(AgentError, Msg(MsgAgentError))
    ensures Trimmed(CStr(buf)) !in {NotSupportedToken, ErrorToken} && receivedLen == 0 ==>
              r == Outcome(NetworkError, Msg(MsgEmptyResponse(addr)))
    ensures Trimmed(CStr(buf)) !in {NotSupportedToken, ErrorToken} && receivedLen > 0 ==>
              r == Outcome(Succeed, TextValue(Trimmed(CStr(buf))))
  {
    var b := TrimBuffer(buf);
    var text := CStr(b);
    if text == NotSupportedToken then
      var message := if NotSupportedSize < readBytes then CStrAt(b, NotSupportedSize) else MsgNotSupported;
      Outcome(NotSupported, Msg(message))
    else if text == ErrorToken then
      Outcome(AgentError, Msg(MsgAgentError))
    else if receivedLen == 0 then
      Outcome(NetworkError, Msg(MsgEmptyResponse(addr)))
    else
      Outcome(Succeed, TextValue(text))
  }

  /** A trimmed NUL-free text is NUL-free and has no leading space and no
      trailing space, CR or LF. */
  lemma TrimmedShape(s: string)
    requires NUL !in s
    ensures var t := Trimmed(s);
            NUL !in t && (|t| > 0 ==> t[0] != ' ' && t[|t| - 1] !in RTrimSet)
  {
    var rt := RTrimmed(s, RTrimSet);
    var t := LTrimmed(rt, LTrimSet);
    PrefixFree(s, |rt|);
    SuffixFree(rt, |rt| - |t|);
    if |t| > 0 {
      assert t[|t| - 1] == rt[|rt| - 1];
    }
  }

  lemma PrefixFree(s: string, n: nat)
    requires NUL !in s && n <= |s|
    ensures NUL !in s[..n]
  {
    assert forall k :: 0 <= k < n ==> s[..n][k] == s[k];
  }

  lemma SuffixFree(s: string, n: nat)
    requires NUL !in s && n <= |s|
    ensures NUL !in s[n..]
  {
    assert forall k :: 0 <= k < |s| - n ==> s[n..][k] == s[n + k];
  }

  /** The value of a successful classification is a NUL-free text with no
      leading space and no trailing space, CR or LF. */
  lemma ValueIsTrimmed(buf: seq<char>, receivedLen: nat, readBytes: int, addr: string)
    requires Classify(buf, receivedLen, readBytes, addr).code == Succeed
    ensures var v := Classify(buf, receivedLen, readBytes, addr).result;
            v.TextValue? && NUL !in v.text &&
            (|v.text| > 0 ==> v.text[0] != ' ' && v.text[|v.text| - 1] !in RTrimSet)
  {
    var t := Trimmed(CStr(buf));
    var r := Classify(buf, receivedLen, readBytes, addr);
    assert t != NotSupportedToken;
    assert t != ErrorToken;
    assert receivedLen > 0;
    assert r.result == TextValue(t);
    TrimmedShape(CStr(buf));
  }

  /** The first and last characters of the tokens. */
  lemma TokenEnds()
    ensures |NotSupportedToken| == 16 && NotSupportedToken[0] == 'Z' && NotSupportedToken[15] == 'D'
    ensures |ErrorToken| == 9 && ErrorToken[0] == 'Z' && ErrorToken[8] == 'R'
    ensures NUL !in NotSupportedToken && NUL !in ErrorToken
  {
  }

  /** A text that starts with no space and ends with no space, CR or LF is
      left alone by the trimming. */
  lemma TrimmedKeeps(s: string)
    requires |s| > 0 && s[0] != ' ' && s[|s| - 1] !in RTrimSet
    ensures Trimmed(s) == s
  {
  }

  /** A token is left alone by the trimming. */
  lemma TokenTrimmed(tok: string)
    requires tok in {NotSupportedToken, ErrorToken}
    ensures Trimmed(tok) == tok
  {
    TokenEnds();
    TrimmedKeeps(tok);
  }

  /** The agent's "ZBX_NOTSUPPORTED\0<reason>": the reason becomes the
      message when it is not empty, the generic message otherwise. */
  lemma NotSupportedCarriesReason(reason: string, receivedLen: nat, addr: string)
    requires NUL !in reason
    ensures var buf := NotSupportedToken + [NUL] + reason;
            Classify(buf, receivedLen, |buf|, addr)
              == Outcome(NotSupported, Msg(if reason == [] then MsgNotSupported else reason))
  {
    var buf := NotSupportedToken + [NUL] + reason;
    CStrOfTerminated(NotSupportedToken, reason);
    TokenTrimmed(NotSupportedToken);
    assert RTrimmed(NotSupportedToken, RTrimSet) == NotSupportedToken;
    assert TrimBuffer(buf) == buf;
    assert buf[NotSupportedSize..] == reason;
    CStrOfUnterminated(reason);
  }

  /** The bare token, terminated and nothing after it, gives the generic
      message. */
  lemma BareNotSupported(receivedLen: nat, addr: string)
    ensures var buf := NotSupportedToken + [NUL];
            Classify(buf, receivedLen, |buf|, addr) == Outcome(NotSupported, Msg(MsgNotSupported))
  {
    NotSupportedCarriesReason([], receivedLen, addr);
    assert NotSupportedToken + [NUL] + [] == NotSupportedToken + [NUL];
  }

  /** Modelled as written: with a leading space before the token, trimming
      moves the token left by one byte, so the reason no longer starts
      sizeof(ZBX_NOTSUPPORTED) bytes in and the message comes out empty. */
  lemma LeadingSpaceDropsReason(reason: string, receivedLen: nat, addr: string)
    requires NUL !in reason
    ensures var buf := [' '] + NotSupportedToken + [NUL] + reason;
            Classify(buf, receivedLen, |buf|, addr) == Outcome(NotSupported, Msg(""))
  {
    var buf := [' '] + NotSupportedToken + [NUL] + reason;
    LeadingSpaceBuffer(reason);
    assert NotSupportedSize < |buf|;
  }

  /** The buffer " ZBX_NOTSUPPORTED\0<reason>" trims to the token, and the
      byte sizeof(ZBX_NOTSUPPORTED) into the trimmed buffer is a NUL. */
  lemma LeadingSpaceBuffer(reason: string)
    requires NUL !in reason
    ensures var buf := [' '] + NotSupportedToken + [NUL] + reason;
            Trimmed(CStr(buf)) == NotSupportedToken && CStrAt(TrimBuffer(buf), NotSupportedSize) == []
  {
    var buf := [' '] + NotSupportedToken + [NUL] + reason;
    LeadingSpaceRTrim(reason);
    LeadingSpaceLTrim();
    var b := LTrimBuffer(buf, LTrimSet);
    assert b[17..] == buf[17..];
    assert buf[17..] == [NUL] + reason;
  }

  /** Right-trimming " ZBX_NOTSUPPORTED\0<reason>" changes nothing. */
  lemma LeadingSpaceRTrim(reason: string)
    requires NUL !in reason
    ensures var buf := [' '] + NotSupportedToken + [NUL] + reason;
            CStr(buf) == [' '] + NotSupportedToken && RTrimBuffer(buf, RTrimSet) == buf
  {
    TokenEnds();
    var tok := [' '] + NotSupportedToken;
    assert tok + [NUL] + reason == [' '] + NotSupportedToken + [NUL] + reason;
    CStrOfTerminated(tok, reason);
    assert tok[|tok| - 1] == 'D';
  }

  /** Left-trimming the token with its leading space drops just the
      space. */
  lemma LeadingSpaceLTrim()
    ensures LTrimmed([' '] + NotSupportedToken, LTrimSet) == NotSupportedToken
  {
    TokenEnds();
    var tok := [' '] + NotSupportedToken;
    assert tok[1..] == NotSupportedToken;
    assert LTrimmed(tok[1..], LTrimSet) == NotSupportedToken;
  }

  /** The message a TLS setting that cannot be used produces, if any. */
  function TlsRefusal(tls: TlsConnect, tlsCompiled: bool, programName: string): (m: Option<string>)
    ensures m.None? <==> tls.Unencrypted? || (tlsCompiled && (tls.TlsCert? || tls.TlsPsk?))
  {
    match tls
    case Unencrypted => None
    case TlsCert | TlsPsk => if tlsCompiled then None else Some(MsgTlsNotCompiled(programName))
    case TlsOther(_) => Some(MsgInvalidTls)
  }

  /** What the receive step makes of the reply: a failed reception is a
      network error with the socket's error text, anything received is
      classified. */
  function RecvOutcome(recv: RecvResult, addr: string, sockErr: string): (r: Outcome)
    ensures recv.RecvFail? ==> r == Outcome(NetworkError, Msg(MsgGetValueFailed(sockErr)))
    ensures recv.Received? ==> r == Classify(recv.buffer, recv.len, recv.readBytes, addr)
    ensures r.code in {Succeed, NotSupported, AgentError, NetworkError}
  {
    match recv
    case RecvFail => Outcome(NetworkError, Msg(MsgGetValueFailed(sockErr)))
    case Received(len, buffer, readBytes) => Classify(buffer, len, readBytes, addr)
  }

  /** get_value_agent: the blocking one-target poll. `connectOk`, `sendOk`,
      `recv` and `alarmTimedOut` are what zbx_tcp_connect, zbx_tcp_send,
      zbx_tcp_recv_ext and zbx_alarm_timed_out report; `sockErr` is
      zbx_socket_strerror(). */
  function GetValueAgent(item: Item, tlsCompiled: bool, programName: string, connectOk: bool,
                         sendOk: bool, recv: RecvResult, alarmTimedOut: bool, sockErr: string): (r: Outcome)
    ensures TlsRefusal(item.tls, tlsCompiled, programName).Some? ==>
              r == Outcome(ConfigError, Msg(TlsRefusal(item.tls, tlsCompiled, programName).value))
    ensures TlsRefusal(item.tls, tlsCompiled, programName).None? ==>
              && (!connectOk ==> r == Outcome(NetworkError, Msg(MsgGetValueFailed(sockErr))))
              && (connectOk && !sendOk ==> r == Outcome(NetworkError, Msg(MsgGetValueFailed(sockErr))))
              && (connectOk && sendOk && recv.RecvFail? ==>
                    r == Outcome(if alarmTimedOut then TimeoutError else NetworkError,
                                 Msg(MsgGetValueFailed(sockErr))))
              && (connectOk && sendOk && recv.Received? ==>
                    r == Classify(recv.buffer, recv.len, recv.readBytes, item.addr))
    ensures r.code != Fail
  {
    match TlsRefusal(item.tls, tlsCompiled, programName)
    case Some(m) => Outcome(ConfigError, Msg(m))
    case None =>
      var ret :=
        if !connectOk then NetworkError
        else if !sendOk then NetworkError
        else if recv.Received? then Succeed
        else if alarmTimedOut then TimeoutError
        else NetworkError;
      if ret == Succeed then
        Classify(recv.buffer, recv.len, recv.readBytes, item.addr)
      else
        Outcome(ret, Msg(MsgGetValueFailed(sockErr)))
  }
}
