/** The inverter's error type (`src/inverter/error.rs`): a closed set of six
    kinds. Three are raised by the codec itself; three wrap an error of the
    standard library, each produced by the matching `From` conversion that
    Rust's `?` operator applies. */
module InverterError {
  import opened Std

  datatype Error =
    | InvalidResponseFormat     // the response line is too short to hold a marker, a checksum and a terminator
    | InvalidResponseCheckSum   // the checksum carried by the line is not that of its payload
    | InvalidResponsePayload    // the payload does not have the shape the command expects
    | Utf8(utf8: Utf8Error)
    | Io(io: IoError)
    | ParseInt(parseInt: ParseIntError)

  /** `impl From<Utf8Error> for Error`. */
  function FromUtf8Error(e: Utf8Error): (r: Error)
    ensures r.Utf8? && r.utf8 == e
  {
    Utf8(e)
  }

  /** `impl From<std::io::Error> for Error`. */
  function FromIoError(e: IoError): (r: Error)
    ensures r.Io? && r.io == e
  {
    Io(e)
  }

  /** `impl From<ParseIntError> for Error`. */
  function FromParseIntError(e: ParseIntError): (r: Error)
    ensures r.ParseInt? && r.parseInt == e
  {
    ParseInt(e)
  }

  /** The codec's own kinds, as opposed to the wrapped standard errors. */
  predicate IsProtocolError(e: Error) {
    e.InvalidResponseFormat? || e.InvalidResponseCheckSum? || e.InvalidResponsePayload?
  }

  /** No conversion loses the error it wraps, and none produces one of the
      codec's own kinds. */
  lemma ConversionsKeepTheirSource(u: Utf8Error, i: IoError, p: ParseIntError)
    ensures FromUtf8Error(u).utf8 == u && !IsProtocolError(FromUtf8Error(u))
    ensures FromIoError(i).io == i && !IsProtocolError(FromIoError(i))
    ensures FromParseIntError(p).parseInt == p && !IsProtocolError(FromParseIntError(p))
  {
  }
}
