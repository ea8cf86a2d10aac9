/** Values shared by the whole physical page-I/O layer: machine-width
    integers, policy constants, segment records, syscall results and the
    outcome of an I/O routine. */
module PioTypes {

  /** ULONG: the unsigned 32-bit page-number type. */
  const ULONG_MODULUS: int := 0x1_0000_0000
  type ULong = x: int | 0 <= x < ULONG_MODULUS

  /** `-1UL`, the sentinel for an unbounded last segment. */
  const MAX_ULONG: ULong := 0xFFFF_FFFF

  /** USHORT: the unsigned 16-bit type of page counts and sequence numbers. */
  const USHORT_MODULUS: int := 0x1_0000

  /** Retry budget of every transfer loop. */
  const IO_RETRY: nat := 20

  /** Size in bytes of the shared zero buffer used by the bulk zero-fill. */
  const ZERO_BUF_SIZE: nat := 1024 * 128

  /** Page-size bounds and header constants of the on-disk format. */
  const MIN_PAGE_SIZE: nat := 1024
  const MAX_PAGE_SIZE: nat := 16384
  const PAG_HEADER: int := 1
  const HDR_SHUTDOWN_MASK: bv16 := 0x1080
  const HDR_SHUTDOWN_SINGLE: bv16 := 0x1080

  /** Reduction to ULONG: what C unsigned 32-bit arithmetic yields. */
  function Wrap32(x: int): (r: ULong)
    ensures 0 <= x < ULONG_MODULUS ==> r == x
    ensures (r - x) % ULONG_MODULUS == 0
  {
    x % ULONG_MODULUS
  }

  function Min(a: int, b: int): (m: int)
    ensures m <= a && m <= b && (m == a || m == b)
  {
    if a <= b then a else b
  }

  /** A page size the database can have. */
  predicate ValidPageSize(pageSize: nat) {
    MIN_PAGE_SIZE <= pageSize <= MAX_PAGE_SIZE
  }

  datatype Option<T> = None | Some(value: T)

  /** Per-segment flag bits (`fil_flags`). */
  datatype FileFlag = ForceWrite | NoFsCache | ReadOnly | OtherFileFlag(bit: nat)

  /** One backing file of the database (`jrd_file`). */
  datatype Segment = Segment(
    desc: int,               // descriptor, -1 once closed
    minPage: ULong,          // first page owned (inclusive)
    maxPage: ULong,          // last page owned (inclusive); MAX_ULONG when unbounded
    fudge: ULong,            // page-number correction before computing the byte offset
    flags: set<FileFlag>,
    name: string)

  /** A freshly set-up segment: owns every page from 0, no flags. */
  function NewSegment(desc: int, name: string): (s: Segment)
    ensures s.desc == desc && s.name == name
    ensures s.minPage == 0 && s.maxPage == MAX_ULONG && s.fudge == 0 && s.flags == {}
  {
    Segment(desc, 0, MAX_ULONG, 0, {}, name)
  }

  /** The result of one read/write syscall, as the retry loops see it. */
  datatype Transfer =
    | Full                   // the whole requested length
    | Short(bytes: nat)      // n < the requested length (possibly zero); n == length is Full
    | Interrupted            // -1 with an interrupted-syscall errno
    | HardError(errno: int)  // -1 with any other errno

  /** The result of one open syscall. */
  datatype OpenAttempt = Opened(fd: nat) | OpenInterrupted | OpenRefused(errno: int)

  /** The OS error code a diagnostic carries: known from the modelled
      syscall, the interrupted-call code, or the ambient errno the model
      does not track. */
  datatype OsErrno = Errno(code: int) | EIntr | Unspecified

  /** The symbolic I/O failure kinds of the status vectors built here. */
  datatype IscCode =
    | IoOpenErr | IoCreateErr | IoReadErr | IoWriteErr | IoAccessErr | Io32BitExceededErr

  /** Structured content of an I/O failure: the call attempted, the file,
      the failure kind and the OS error code. */
  datatype IoError = IoError(call: string, path: string, code: IscCode, errno: OsErrno)

  /** What a raised exception carries. */
  datatype Fault =
    | Io(error: IoError)     // ERR_post(isc_io_error, ...)
    | Corrupt(msg: nat)      // CORRUPT(n)
    | Shutdown(path: string) // ERR_post(isc_shutdown, ...)

  /** The outcome of a routine: its ordinary return value; the failure
      value it returns after filling the caller's status vector; or an
      exception. */
  datatype Outcome<T> = Value(v: T) | Reported(e: IoError) | Thrown(f: Fault)

  /** A failed outcome re-typed for the enclosing routine. */
  function Propagate<T, U>(o: Outcome<T>): (r: Outcome<U>)
    requires !o.Value?
    ensures o.Reported? ==> r == Reported(o.e)
    ensures o.Thrown? ==> r == Thrown(o.f)
  {
    match o
    case Reported(e) => Reported(e)
    case Thrown(f) => Thrown(f)
  }
}
