/** The error classifier `unix_error`: it either fills the caller's status
    vector with an eleven-slot record and returns false, or raises the same
    content when no status vector is given. */
module Status {
  import opened PioTypes

  /** One slot of a status vector. */
  datatype StatusItem =
    | ArgGds | ArgString | ArgUnix | ArgEnd
    | IscIoError
    | Str(s: string)
    | Code(c: IscCode)
    | OsCode(errno: OsErrno)

  /** Number of slots `unix_error` writes. */
  const STATUS_LENGTH: nat := 11

  /** The record `unix_error` lays out for a failure. */
  function StatusRecord(e: IoError): (sv: seq<StatusItem>)
    ensures |sv| == STATUS_LENGTH
    ensures sv[0] == ArgGds && sv[1] == IscIoError && sv[STATUS_LENGTH - 1] == ArgEnd
  {
    [ArgGds, IscIoError, ArgString, Str(e.call), ArgString, Str(e.path),
     ArgGds, Code(e.code), ArgUnix, OsCode(e.errno), ArgEnd]
  }

  /** Reading a status vector back: the failure it describes, if it is an
      I/O-error record of the shape above. */
  function DecodeStatus(sv: seq<StatusItem>): (r: Option<IoError>)
  {
    if |sv| >= STATUS_LENGTH && sv[0] == ArgGds && sv[1] == IscIoError
       && sv[2] == ArgString && sv[3].Str? && sv[4] == ArgString && sv[5].Str?
       && sv[6] == ArgGds && sv[7].Code? && sv[8] == ArgUnix && sv[9].OsCode?
       && sv[10] == ArgEnd
    then Some(IoError(sv[3].s, sv[5].s, sv[7].c, sv[9].errno))
    else None
  }

  /** The reported record carries exactly the failure that would be raised:
      both paths of the classifier carry identical content. */
  lemma DecodeStatusRecord(e: IoError, rest: seq<StatusItem>)
    ensures DecodeStatus(StatusRecord(e) + rest) == Some(e)
  {
    var sv := StatusRecord(e) + rest;
    assert sv[..STATUS_LENGTH] == StatusRecord(e);
    assert sv[3] == Str(e.call) && sv[5] == Str(e.path);
    assert sv[7] == Code(e.code) && sv[9] == OsCode(e.errno);
  }

  /** The value-level effect of `unix_error` on the routine that calls it:
      with a status vector, return the failure value; without, raise. */
  function Classify<T>(e: IoError, hasSink: bool): (r: Outcome<T>)
    ensures hasSink <==> r.Reported?
    ensures r.Reported? ==> r.e == e
    ensures r.Thrown? ==> r.f == Io(e)
    ensures !r.Value?
  {
    if hasSink then Reported(e) else Thrown(Io(e))
  }

  /** `unix_error` itself: writes the record into the first eleven slots of
      the status vector, if one is given, and leaves the rest alone. */
  method UnixError(e: IoError, sv: array?<StatusItem>) returns (r: Outcome<bool>)
    requires sv != null ==> sv.Length >= STATUS_LENGTH
    modifies sv
    ensures r == Classify(e, sv != null)
    ensures sv != null ==> sv[..STATUS_LENGTH] == StatusRecord(e)
    ensures sv != null ==> sv[STATUS_LENGTH..] == old(sv[STATUS_LENGTH..])
    ensures sv != null ==> DecodeStatus(sv[..]) == Some(e)
  {
    if sv != null {
      sv[0], sv[1], sv[2], sv[3] := ArgGds, IscIoError, ArgString, Str(e.call);
      sv[4], sv[5], sv[6], sv[7] := ArgString, Str(e.path), ArgGds, Code(e.code);
      sv[8], sv[9], sv[10] := ArgUnix, OsCode(e.errno), ArgEnd;
      var rec := StatusRecord(e);
      assert sv[..STATUS_LENGTH] == rec;
      assert sv[..] == rec + sv[STATUS_LENGTH..];
      DecodeStatusRecord(e, sv[STATUS_LENGTH..]);
      r := Reported(e);
    } else {
      r := Thrown(Io(e));
    }
  }
}
