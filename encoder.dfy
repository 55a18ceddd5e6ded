/**
 * The wire envelope (`transport/Encoder.java`): one flag byte, then the payload. Flag 0 carries
 * data, flag 1 carries the message of an error. A Java string is modelled by the bytes that
 * `getBytes` and `new String` convert it to and from, so the character set is not modelled.
 */
module Encoder {
  import opened Bytes
  import opened Wrappers

  /** The exception carried by an error package; its message may be null. */
  datatype Exception = Exception(message: Option<seq<Byte>>)

  /** `Package`: data, or an error, or (as a Java object can be) neither. */
  datatype Package = Package(data: Option<seq<Byte>>, err: Option<Exception>)

  datatype CodecError = InvalidPkgData | NullData

  const DATA_FLAG: Byte := 0
  const ERROR_FLAG: Byte := 1

  /** "Intern server error!", the message sent for an exception without one. */
  const DEFAULT_MESSAGE: seq<Byte> :=
    [73, 110, 116, 101, 114, 110, 32, 115, 101, 114, 118, 101, 114, 32, 101, 114, 114, 111, 114, 33]

  /** `encode`. A package with neither data nor error makes `Bytes.concat` throw a
      `NullPointerException`; that is the `NullData` outcome. */
  function Encode(pkg: Package): (r: Result<seq<Byte>, CodecError>)
    ensures r.Ok? <==> pkg.err.Some? || pkg.data.Some?
    ensures r.Ok? ==> |r.value| >= 1 && r.value[0] == (if pkg.err.Some? then ERROR_FLAG else DATA_FLAG)
  {
    match pkg.err
    case Some(e) =>
      var msg := if e.message.Some? then e.message.value else DEFAULT_MESSAGE;
      Ok([ERROR_FLAG] + msg)
    case None =>
      if pkg.data.None? then Err(NullData) else Ok([DATA_FLAG] + pkg.data.value)
  }

  /** `decode`: an empty envelope and an unknown flag are format errors. The exception rebuilt
      for flag 1 always has a message. */
  function Decode(b: seq<Byte>): (r: Result<Package, CodecError>)
    ensures r.Err? <==> |b| == 0 || b[0] !in {DATA_FLAG, ERROR_FLAG}
    ensures r.Err? ==> r.error == InvalidPkgData
    ensures r.Ok? ==> (r.value.data.Some? <==> r.value.err.None?)
  {
    if |b| < 1 then Err(InvalidPkgData)
    else if b[0] == DATA_FLAG then Ok(Package(Some(b[1..]), None))
    else if b[0] == ERROR_FLAG then Ok(Package(None, Some(Exception(Some(b[1..])))))
    else Err(InvalidPkgData)
  }

  /** A data package survives the round trip. */
  lemma DataRoundTrip(d: seq<Byte>)
    ensures Encode(Package(Some(d), None)) == Ok([DATA_FLAG] + d)
    ensures Decode([DATA_FLAG] + d) == Ok(Package(Some(d), None))
  {
    assert ([DATA_FLAG] + d)[1..] == d;
  }

  /** An error package arrives with its message, or with the default one when it had none; any
      data it also carried is dropped. */
  lemma ErrorRoundTrip(data: Option<seq<Byte>>, e: Exception)
    ensures var msg := if e.message.Some? then e.message.value else DEFAULT_MESSAGE;
      && Encode(Package(data, Some(e))) == Ok([ERROR_FLAG] + msg)
      && Decode([ERROR_FLAG] + msg) == Ok(Package(None, Some(Exception(Some(msg)))))
  {
    var msg := if e.message.Some? then e.message.value else DEFAULT_MESSAGE;
    assert ([ERROR_FLAG] + msg)[1..] == msg;
  }

  /** Every envelope that decodes is re-encoded byte for byte. */
  lemma DecodeThenEncode(b: seq<Byte>)
    requires Decode(b).Ok?
    ensures Encode(Decode(b).value) == Ok(b)
  {
    assert b == [b[0]] + b[1..];
  }
}
