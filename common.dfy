/** The return codes shared by the server's checks and history backends. */
module Common {
  /** SUCCEED, FAIL, NOTSUPPORTED, NETWORK_ERROR, TIMEOUT_ERROR,
      AGENT_ERROR and CONFIG_ERROR. */
  datatype ErrCode = Succeed | Fail | NotSupported | NetworkError | TimeoutError | AgentError | ConfigError
}
