/** The bounded retry loops of the positioned I/O engine: page read, page
    write, header read and file open. Each syscall is an oracle indexed by
    the attempt number; each loop is proved equal to a specification
    stated through the first attempt that ends the loop. */
module Retry {
  import opened PioTypes
  import opened Status
  import opened FileChain
  import opened OpenFlags

  /** The first attempt in [k, bound) at which `stop` holds, or `bound`. */
  function FirstStop(stop: nat -> bool, k: nat, bound: nat): (j: nat)
    requires k <= bound
    decreases bound - k
    ensures k <= j <= bound
    ensures j < bound ==> stop(j)
    ensures forall i | k <= i < j :: !stop(i)
  {
    if k == bound then k
    else if stop(k) then k
    else FirstStop(stop, k + 1, bound)
  }

  /** A loop that saw no stop before attempt i, and a stop at i (or ran
      out at the bound), stopped where `FirstStop` says. */
  lemma FirstStopAt(stop: nat -> bool, i: nat, bound: nat)
    requires i <= bound
    requires forall j | 0 <= j < i :: !stop(j)
    requires i < bound ==> stop(i)
    ensures FirstStop(stop, 0, bound) == i
  {
  }

  /** A data transfer that ends the retry loop: the full page, or a hard
      error. Short and interrupted transfers are retried. */
  predicate EndsTransfer(t: Transfer) {
    t.Full? || t.HardError?
  }

  function TransferStop(io: nat -> Transfer): nat -> bool {
    (i: nat) => EndsTransfer(io(i))
  }

  /** The header read stops at anything but an interruption. */
  function HeaderStop(io: nat -> Transfer): nat -> bool {
    (i: nat) => !io(i).Interrupted?
  }

  /** An open stops at anything but an interruption. */
  function OpenStop(open: (set<OpenFlag>, nat) -> OpenAttempt, flags: set<OpenFlag>): nat -> bool {
    (i: nat) => !open(flags, i).OpenInterrupted?
  }

  /** What `PIO_read` does: check the descriptor it was given, resolve the
      page, then retry until a full page or a hard error; on exhaustion a
      last read of zero bytes counts as success and anything else raises
      `read_retry`. */
  function ReadSpec(chain: seq<Segment>, from: nat, page: ULong, pageSize: nat,
                    wideOffT: bool, hasSink: bool, io: nat -> Transfer): Outcome<bool>
    requires from < |chain| && pageSize < USHORT_MODULUS
  {
    if chain[from].desc == -1 then Classify(IoError("read", chain[from].name, IoReadErr, Unspecified), hasSink)
    else
      var s := SeekFile(chain, from, page, pageSize, wideOffT, hasSink);
      if !s.Value? then Propagate(s)
      else
        var name := chain[s.v.index].name;
        var k := FirstStop(TransferStop(io), 0, IO_RETRY);
        if k < IO_RETRY then
          if io(k).Full? then Value(true)
          else Classify(IoError("read", name, IoReadErr, Errno(io(k).errno)), hasSink)
        else if io(IO_RETRY - 1) == Short(0) then Value(true)
        else Thrown(Io(IoError("read_retry", name, IoReadErr,
                               if io(IO_RETRY - 1).Interrupted? then EIntr else Unspecified)))
  }

  /** What `PIO_write` does: as the read, but exhausting the retries is
      not checked and returns success. */
  function WriteSpec(chain: seq<Segment>, from: nat, page: ULong, pageSize: nat,
                     wideOffT: bool, hasSink: bool, io: nat -> Transfer): Outcome<bool>
    requires from < |chain| && pageSize < USHORT_MODULUS
  {
    if chain[from].desc == -1 then Classify(IoError("write", chain[from].name, IoWriteErr, Unspecified), hasSink)
    else
      var s := SeekFile(chain, from, page, pageSize, wideOffT, hasSink);
      if !s.Value? then Propagate(s)
      else
        var k := FirstStop(TransferStop(io), 0, IO_RETRY);
        if k < IO_RETRY && io(k).HardError? then
          Classify(IoError("write", chain[s.v.index].name, IoWriteErr, Errno(io(k).errno)), hasSink)
        else Value(true)
  }

  /** `PIO_read` (positioned-I/O build). */
  method PioRead(chain: seq<Segment>, from: nat, page: ULong, pageSize: nat,
                 wideOffT: bool, hasSink: bool, io: nat -> Transfer) returns (r: Outcome<bool>)
    requires from < |chain| && pageSize < USHORT_MODULUS
    ensures r == ReadSpec(chain, from, page, pageSize, wideOffT, hasSink, io)
  {
    if chain[from].desc == -1 {
      return Classify(IoError("read", chain[from].name, IoReadErr, Unspecified), hasSink);
    }
    ghost var s0 := SeekFile(chain, from, page, pageSize, wideOffT, hasSink);
    var file := from;
    var last := Interrupted;
    var i := 0;
    while i < IO_RETRY
      invariant 0 <= i <= IO_RETRY
      invariant i == 0 ==> file == from
      invariant i > 0 ==> s0.Value? && file == s0.v.index && last == io(i - 1)
      invariant forall j | 0 <= j < i :: !EndsTransfer(io(j))
    {
      if i > 0 { SeekFromFound(chain, from, page, pageSize, wideOffT, hasSink); }
      var s := SeekFile(chain, file, page, pageSize, wideOffT, hasSink);
      if !s.Value? {
        return Propagate(s);
      }
      file := s.v.index;
      var t := io(i);
      if t.Full? {
        break;
      }
      if t.HardError? {
        FirstStopAt(TransferStop(io), i, IO_RETRY);
        return Classify(IoError("read", chain[file].name, IoReadErr, Errno(t.errno)), hasSink);
      }
      last := t;
      i := i + 1;
    }
    FirstStopAt(TransferStop(io), i, IO_RETRY);
    if i == IO_RETRY {
      if last != Short(0) {
        return Thrown(Io(IoError("read_retry", chain[file].name, IoReadErr,
                                 if last.Interrupted? then EIntr else Unspecified)));
      }
    }
    return Value(true);
  }

  /** `PIO_write` (positioned-I/O build). */
  method PioWrite(chain: seq<Segment>, from: nat, page: ULong, pageSize: nat,
                  wideOffT: bool, hasSink: bool, io: nat -> Transfer) returns (r: Outcome<bool>)
    requires from < |chain| && pageSize < USHORT_MODULUS
    ensures r == WriteSpec(chain, from, page, pageSize, wideOffT, hasSink, io)
  {
    if chain[from].desc == -1 {
      return Classify(IoError("write", chain[from].name, IoWriteErr, Unspecified), hasSink);
    }
    ghost var s0 := SeekFile(chain, from, page, pageSize, wideOffT, hasSink);
    var file := from;
    var i := 0;
    while i < IO_RETRY
      invariant 0 <= i <= IO_RETRY
      invariant i == 0 ==> file == from
      invariant i > 0 ==> s0.Value? && file == s0.v.index
      invariant forall j | 0 <= j < i :: !EndsTransfer(io(j))
    {
      if i > 0 { SeekFromFound(chain, from, page, pageSize, wideOffT, hasSink); }
      var s := SeekFile(chain, file, page, pageSize, wideOffT, hasSink);
      if !s.Value? {
        return Propagate(s);
      }
      file := s.v.index;
      var t := io(i);
      if t.Full? {
        break;
      }
      if t.HardError? {
        FirstStopAt(TransferStop(io), i, IO_RETRY);
        return Classify(IoError("write", chain[file].name, IoWriteErr, Errno(t.errno)), hasSink);
      }
      i := i + 1;
    }
    FirstStopAt(TransferStop(io), i, IO_RETRY);
    return Value(true);
  }

  /** What `PIO_header` does with the primary segment: a closed descriptor
      raises; otherwise the first attempt that is not interrupted ends the
      loop, a short read included; twenty interruptions raise `read_retry`.
      The value is the number of bytes read. */
  function HeaderSpec(file: Segment, length: nat, io: nat -> Transfer): Outcome<nat> {
    if file.desc == -1 then Thrown(Io(IoError("PIO_header", file.name, IoReadErr, Unspecified)))
    else
      var k := FirstStop(HeaderStop(io), 0, IO_RETRY);
      if k == IO_RETRY then Thrown(Io(IoError("read_retry", file.name, IoReadErr, EIntr)))
      else match io(k)
        case Full => Value(length)
        case Short(n) => Value(n)
        case HardError(e) => Thrown(Io(IoError("read", file.name, IoReadErr, Errno(e))))
  }

  /** `PIO_header` (positioned-I/O build); it has no status vector, so
      every failure raises. */
  method PioHeader(file: Segment, length: nat, io: nat -> Transfer) returns (r: Outcome<nat>)
    ensures r == HeaderSpec(file, length, io)
  {
    if file.desc == -1 {
      return Thrown(Io(IoError("PIO_header", file.name, IoReadErr, Unspecified)));
    }
    var bytes: Transfer := Interrupted;
    var i := 0;
    while i < IO_RETRY
      invariant 0 <= i <= IO_RETRY
      invariant forall j | 0 <= j < i :: io(j).Interrupted?
      invariant i > 0 ==> bytes == Interrupted
    {
      bytes := io(i);
      if bytes.HardError? {
        FirstStopAt(HeaderStop(io), i, IO_RETRY);
        return Thrown(Io(IoError("read", file.name, IoReadErr, Errno(bytes.errno))));
      }
      if !bytes.Interrupted? {
        break;
      }
      i := i + 1;
    }
    FirstStopAt(HeaderStop(io), i, IO_RETRY);
    if i == IO_RETRY {
      // every attempt returned -1, so the `bytes == 0` branch cannot apply
      return Thrown(Io(IoError("read_retry", file.name, IoReadErr, EIntr)));
    }
    return Value(if bytes.Full? then length else bytes.bytes);
  }

  /** What `openFile` returns: the descriptor of the first open that is
      not interrupted, -1 if that one fails or all twenty are interrupted. */
  function OpenSpec(open: (set<OpenFlag>, nat) -> OpenAttempt, q: OpenRequest): int {
    var flags := OpenFileFlags(q);
    var k := FirstStop(OpenStop(open, flags), 0, IO_RETRY);
    if k < IO_RETRY && open(flags, k).Opened? then open(flags, k).fd else -1
  }

  /** `openFile`: open with the composed flags, retrying interruptions. */
  method OpenFile(open: (set<OpenFlag>, nat) -> OpenAttempt, q: OpenRequest) returns (desc: int)
    ensures desc == OpenSpec(open, q)
  {
    var flag := OpenFileFlags(q);
    var i := 0;
    while i < IO_RETRY
      invariant 0 <= i <= IO_RETRY
      invariant forall j | 0 <= j < i :: open(flag, j).OpenInterrupted?
    {
      var a := open(flag, i);
      if a.Opened? {
        FirstStopAt(OpenStop(open, flag), i, IO_RETRY);
        return a.fd;
      }
      if !a.OpenInterrupted? {
        break;
      }
      i := i + 1;
    }
    FirstStopAt(OpenStop(open, flag), i, IO_RETRY);
    return -1;
  }

  /** The precondition of every transfer property below: the descriptor
      handed in is open and the page resolves. */
  predicate Resolves(chain: seq<Segment>, from: nat, page: ULong, pageSize: nat,
                     wideOffT: bool, hasSink: bool)
    requires from < |chain| && pageSize < USHORT_MODULUS
  {
    chain[from].desc != -1 && SeekFile(chain, from, page, pageSize, wideOffT, hasSink).Value?
  }

  /** Interruption injection: a read interrupted or short up to n < 20
      times and then full succeeds; writes likewise. */
  lemma RetriedTransferSucceeds(chain: seq<Segment>, from: nat, page: ULong, pageSize: nat,
                                wideOffT: bool, hasSink: bool, io: nat -> Transfer, n: nat)
    requires from < |chain| && pageSize < USHORT_MODULUS
    requires Resolves(chain, from, page, pageSize, wideOffT, hasSink)
    requires n < IO_RETRY && io(n) == Full
    requires forall j | 0 <= j < n :: io(j).Interrupted? || io(j).Short?
    ensures ReadSpec(chain, from, page, pageSize, wideOffT, hasSink, io) == Value(true)
    ensures WriteSpec(chain, from, page, pageSize, wideOffT, hasSink, io) == Value(true)
  {
    FirstStopAt(TransferStop(io), n, IO_RETRY);
  }

  /** Exhausting the retries of a read: success exactly when the last
      attempt read zero bytes, otherwise `read_retry` is raised; twenty
      interruptions therefore always raise. */
  lemma ReadExhaustion(chain: seq<Segment>, from: nat, page: ULong, pageSize: nat,
                       wideOffT: bool, hasSink: bool, io: nat -> Transfer)
    requires from < |chain| && pageSize < USHORT_MODULUS
    requires Resolves(chain, from, page, pageSize, wideOffT, hasSink)
    requires forall j | 0 <= j < IO_RETRY :: io(j).Interrupted? || io(j).Short?
    ensures var r := ReadSpec(chain, from, page, pageSize, wideOffT, hasSink, io);
            && (r == Value(true) <==> io(IO_RETRY - 1) == Short(0))
            && (r != Value(true) ==> r.Thrown? && r.f.Io? && r.f.error.call == "read_retry")
  {
    FirstStopAt(TransferStop(io), IO_RETRY, IO_RETRY);
  }

  /** Exhausting the retries of a write is not an error. */
  lemma WriteExhaustion(chain: seq<Segment>, from: nat, page: ULong, pageSize: nat,
                        wideOffT: bool, hasSink: bool, io: nat -> Transfer)
    requires from < |chain| && pageSize < USHORT_MODULUS
    requires Resolves(chain, from, page, pageSize, wideOffT, hasSink)
    requires forall j | 0 <= j < IO_RETRY :: io(j).Interrupted? || io(j).Short?
    ensures WriteSpec(chain, from, page, pageSize, wideOffT, hasSink, io) == Value(true)
  {
    FirstStopAt(TransferStop(io), IO_RETRY, IO_RETRY);
  }

  /** A hard error before any full transfer fails the read and the write
      at once, reported with its errno; later attempts do not matter. */
  lemma HardErrorFails(chain: seq<Segment>, from: nat, page: ULong, pageSize: nat,
                       wideOffT: bool, hasSink: bool, io: nat -> Transfer, n: nat, errno: int)
    requires from < |chain| && pageSize < USHORT_MODULUS
    requires Resolves(chain, from, page, pageSize, wideOffT, hasSink)
    requires n < IO_RETRY && io(n) == HardError(errno)
    requires forall j | 0 <= j < n :: io(j).Interrupted? || io(j).Short?
    ensures var k := SeekFile(chain, from, page, pageSize, wideOffT, hasSink).v.index;
            && ReadSpec(chain, from, page, pageSize, wideOffT, hasSink, io)
                 == Classify(IoError("read", chain[k].name, IoReadErr, Errno(errno)), hasSink)
            && WriteSpec(chain, from, page, pageSize, wideOffT, hasSink, io)
                 == Classify(IoError("write", chain[k].name, IoWriteErr, Errno(errno)), hasSink)
  {
    FirstStopAt(TransferStop(io), n, IO_RETRY);
  }

  /** A write succeeds exactly when the descriptor is open, the page
      resolves, and no hard error comes before the first full transfer. */
  lemma WriteSucceedsIff(chain: seq<Segment>, from: nat, page: ULong, pageSize: nat,
                         wideOffT: bool, hasSink: bool, io: nat -> Transfer)
    requires from < |chain| && pageSize < USHORT_MODULUS
    ensures WriteSpec(chain, from, page, pageSize, wideOffT, hasSink, io).Value?
            <==> Resolves(chain, from, page, pageSize, wideOffT, hasSink)
                 && forall j | 0 <= j < IO_RETRY && io(j).HardError? ::
                      exists i :: 0 <= i < j && io(i).Full?
  {
    if Resolves(chain, from, page, pageSize, wideOffT, hasSink) {
      var k := FirstStop(TransferStop(io), 0, IO_RETRY);
      assert k < IO_RETRY ==> EndsTransfer(io(k));
      if k < IO_RETRY && io(k).HardError? {
        forall i | 0 <= i < k ensures !io(i).Full? {
          assert !TransferStop(io)(i);
        }
      } else {
        forall j | 0 <= j < IO_RETRY && io(j).HardError?
          ensures exists i :: 0 <= i < j && io(i).Full?
        {
          assert TransferStop(io)(j);
          assert k <= j && io(k).Full?;
          assert k < j;
        }
      }
    }
  }

  /** The header read never tolerates an exhausted retry budget: its
      `bytes == 0` branch is dead, since only interruptions are retried. */
  lemma HeaderExhaustionRaises(file: Segment, length: nat, io: nat -> Transfer)
    requires forall j | 0 <= j < IO_RETRY :: io(j).Interrupted?
    ensures HeaderSpec(file, length, io).Thrown?
    ensures file.desc != -1 ==>
              HeaderSpec(file, length, io) == Thrown(Io(IoError("read_retry", file.name, IoReadErr, EIntr)))
  {
    FirstStopAt(HeaderStop(io), IO_RETRY, IO_RETRY);
  }

  /** Unlike the page read, the header read accepts a short read at once. */
  lemma HeaderAcceptsShort(file: Segment, length: nat, io: nat -> Transfer, n: nat, bytes: nat)
    requires file.desc != -1
    requires n < IO_RETRY && io(n) == Short(bytes)
    requires forall j | 0 <= j < n :: io(j).Interrupted?
    ensures HeaderSpec(file, length, io) == Value(bytes)
  {
    FirstStopAt(HeaderStop(io), n, IO_RETRY);
  }

  /** The read loop as the code is written: `bytes` is a 64-bit unsigned,
      so pread's -1 never equals `-1U` (0xFFFFFFFF) and only a full read
      stops the loop; a hard error is retried like a short read. */
  function FullStop(io: nat -> Transfer): nat -> bool {
    (i: nat) => io(i).Full?
  }

  /** What `PIO_read` does as written: a hard error is not detected, and
      an exhausted loop ending on one raises `read_retry` with its errno. */
  function ReadSpecAsWritten(chain: seq<Segment>, from: nat, page: ULong, pageSize: nat,
                             wideOffT: bool, hasSink: bool, io: nat -> Transfer): (r: Outcome<bool>)
    requires from < |chain| && pageSize < USHORT_MODULUS
    ensures r.Reported? ==> !Resolves(chain, from, page, pageSize, wideOffT, hasSink)
  {
    if chain[from].desc == -1 then Classify(IoError("read", chain[from].name, IoReadErr, Unspecified), hasSink)
    else
      var s := SeekFile(chain, from, page, pageSize, wideOffT, hasSink);
      if !s.Value? then Propagate(s)
      else
        var name := chain[s.v.index].name;
        var k := FirstStop(FullStop(io), 0, IO_RETRY);
        if k < IO_RETRY then Value(true)
        else if io(IO_RETRY - 1) == Short(0) then Value(true)
        else Thrown(Io(IoError("read_retry", name, IoReadErr,
                               match io(IO_RETRY - 1)
                               case Interrupted => EIntr
                               case HardError(e) => Errno(e)
                               case _ => Unspecified)))
  }

  /** Two stop conditions that agree on [k, bound) stop at the same place. */
  lemma {:induction false} FirstStopSame(stop1: nat -> bool, stop2: nat -> bool, k: nat, bound: nat)
    requires k <= bound
    requires forall i | k <= i < bound :: stop1(i) == stop2(i)
    ensures FirstStop(stop1, k, bound) == FirstStop(stop2, k, bound)
    decreases bound - k
  {
    if k < bound && !stop1(k) {
      FirstStopSame(stop1, stop2, k + 1, bound);
    }
  }

  /** Without a hard error among the twenty attempts the code as written
      and the model agree. */
  lemma ReadAsWrittenAgrees(chain: seq<Segment>, from: nat, page: ULong, pageSize: nat,
                            wideOffT: bool, hasSink: bool, io: nat -> Transfer)
    requires from < |chain| && pageSize < USHORT_MODULUS
    requires forall j | 0 <= j < IO_RETRY :: !io(j).HardError?
    ensures ReadSpecAsWritten(chain, from, page, pageSize, wideOffT, hasSink, io)
            == ReadSpec(chain, from, page, pageSize, wideOffT, hasSink, io)
  {
    forall i | 0 <= i < IO_RETRY ensures TransferStop(io)(i) == FullStop(io)(i) {
      assert !io(i).HardError?;
    }
    FirstStopSame(TransferStop(io), FullStop(io), 0, IO_RETRY);
  }

  /** A page read that fails hard (EIO, errno 5) once and then succeeds. */
  function HardThenFull(): nat -> Transfer {
    (i: nat) => if i == 0 then HardError(5) else Full
  }

  /** The discrepancy: on a hard error followed by a full read, the code as
      written returns true where the model reports the `read` error. */
  lemma HardErrorRetriedAsWritten()
    ensures ReadSpecAsWritten([NewSegment(3, "db")], 0, 7, 1024, true, true, HardThenFull()) == Value(true)
    ensures ReadSpec([NewSegment(3, "db")], 0, 7, 1024, true, true, HardThenFull())
            == Reported(IoError("read", "db", IoReadErr, Errno(5)))
  {
    var chain := [NewSegment(3, "db")];
    var io := HardThenFull();
    assert FindHolder(chain, 0, 7) == 0;
    assert SeekFile(chain, 0, 7, 1024, true, true) == Value(Pos(0, 7 * 1024));
    assert io(0) == HardError(5) && io(1) == Full;
    FirstStopAt(TransferStop(io), 0, IO_RETRY);
    assert !FullStop(io)(0);
    FirstStopAt(FullStop(io), 1, IO_RETRY);
  }

  /** `openFile` yields a descriptor exactly when some attempt among the
      first twenty opens, preceded only by interruptions; that descriptor
      is the one returned. */
  lemma OpenSpecDescriptor(open: (set<OpenFlag>, nat) -> OpenAttempt, q: OpenRequest)
    ensures var d := OpenSpec(open, q);
            var flags := OpenFileFlags(q);
            d != -1 <==> exists k :: 0 <= k < IO_RETRY && open(flags, k).Opened?
                                     && (forall j | 0 <= j < k :: open(flags, j).OpenInterrupted?)
    ensures var d := OpenSpec(open, q);
            var flags := OpenFileFlags(q);
            d != -1 ==> exists k :: 0 <= k < IO_RETRY && open(flags, k) == Opened(d)
  {
    var flags := OpenFileFlags(q);
    var k := FirstStop(OpenStop(open, flags), 0, IO_RETRY);
    forall k' | 0 <= k' < IO_RETRY && open(flags, k').Opened?
                && (forall j | 0 <= j < k' :: open(flags, j).OpenInterrupted?)
      ensures k' == k
    {
      assert OpenStop(open, flags)(k');
      FirstStopAt(OpenStop(open, flags), k', IO_RETRY);
    }
    if k < IO_RETRY && open(flags, k).Opened? {
      assert open(flags, k) == Opened(OpenSpec(open, q));
      forall j | 0 <= j < k ensures open(flags, j).OpenInterrupted? {
        assert !OpenStop(open, flags)(j);
      }
    }
  }
}
