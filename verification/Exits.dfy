/** How a step of a session ends: it goes on, or the whole session is over. */
module Exits {

  /** The places where the program gives up because it finds itself in a state it believes impossible. */
  datatype Bug =
    | DescriptorPresent  // data descriptor still present in init_data_sock_params
    | NoDescriptor       // no data descriptor in vsf_ftpdataio_dispose_transfer_fd
    | DoubleRegister     // double register of i/o handler
    | NoHandler          // no i/o handler to unregister
    | LogPending         // non null log_type in vsf_log_start_entry
    | BothActive         // port and pasv both active
    | NeitherActive      // neither PORT nor PASV active in get_remote_transfer_fd
    | SslPresent         // p_data_ssl should be NULL
    | StateNotClean      // state not clean, in the SSL slave
    | NullSsl            // a read or write on the SSL object of no connection
    | RecvTooBig         // recv_len bigger than buffer
    | TextTooBig         // priv_sock_get_str: too big
    | UnknownRequest     // bad request in either request loop
    | ReservedPort       // illegal port request
    | UnexpectedResult   // a result code that is neither OK nor BAD
    | OutOfStep          // a handler has made a request inside another; nothing can be said from there on

  datatype Reason =
    | Goodbye           // the client said QUIT
    | ConnectionLost    // end of stream, write failure, timeout, failed SSL handshake
    | SystemFailure     // a system call failed where the program insists on success
    | Trap(bug: Bug)

  datatype Outcome = Go | Exit(reason: Reason) {
    predicate IsFailure() {
      Exit?
    }

    function PropagateFailure(): Outcome {
      this
    }

    predicate Traps() {
      Exit? && reason.Trap?
    }
  }
}
