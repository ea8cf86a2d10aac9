/** The database-level routines of the page-I/O layer: the chain of
    backing files of the database page space, opening and creating files,
    the attach handshake of `setup_file`, adding a file, switching the write
    modes of a file, and closing the chain. */
module Pio {
  import opened PioTypes
  import opened FileChain
  import opened OpenFlags
  import opened Retry
  import opened Header

  /** Bits of `dbb_flags` these routines set or clear. */
  datatype DbbFlag = Exclusive | BeingOpenedReadOnly | OtherDbbFlag(bit: nat)

  /** The database lock block `setup_file` builds; of its key only the
      length is modelled. */
  datatype LockBlock = LockBlock(keyLength: nat)

  /** Size in bytes of the lock-key buffer of `setup_file`. */
  const LOCK_KEY_SIZE: nat := 32

  /** The attach handshake's view of the world, one answer per poll of the
      shared-lock wait: the sizes of `st_dev` and `st_ino`, whether the
      exclusive no-wait lock is granted, after how many failed polls the
      shared lock is granted, and per poll the header read, the rewind
      (an errno when it fails) and the header's `hdr_flags`. */
  datatype Handshake = Handshake(
    devSize: nat,
    inoSize: nat,
    exclusive: bool,
    grantAfter: nat,
    headerIo: nat -> (nat -> Transfer),
    rewind: nat -> Option<int>,
    headerFlags: nat -> bv16)

  /** Poll n of the wait loop: read the header of the new file through
      `PIO_header`, rewind, and stop on a single-user shutdown; the fault
      it raises, if any. */
  function PollFault(seg: Segment, hs: Handshake, n: nat): Option<Fault> {
    var h := HeaderSpec(seg, MIN_PAGE_SIZE, hs.headerIo(n));
    if h.Thrown? then Some(h.f)
    else if hs.rewind(n).Some? then Some(Io(IoError("lseek", seg.name, IoReadErr, Errno(hs.rewind(n).value))))
    else if IsShutdownSingle(hs.headerFlags(n)) then Some(Shutdown(seg.name))
    else None
  }

  function PollStop(seg: Segment, hs: Handshake): nat -> bool {
    (n: nat) => PollFault(seg, hs, n).Some?
  }

  /** What `setup_file` yields for the primary file: the new segment when
      the exclusive lock is granted at once or no poll of the wait faults,
      and otherwise the first poll's fault. */
  function HandshakeSpec(seg: Segment, hs: Handshake): Outcome<Segment> {
    if hs.exclusive then Value(seg)
    else
      var k := FirstStop(PollStop(seg, hs), 0, hs.grantAfter);
      if k == hs.grantAfter then Value(seg) else Thrown(PollFault(seg, hs, k).value)
  }

  /** The handshake succeeds exactly when the exclusive lock is granted at
      once or every poll before the shared lock is granted passes; it then
      yields the segment, and it fails only by raising. */
  lemma HandshakeSucceedsIff(seg: Segment, hs: Handshake)
    ensures var r := HandshakeSpec(seg, hs);
            && (r.Value? <==> hs.exclusive || forall n | 0 <= n < hs.grantAfter :: PollFault(seg, hs, n).None?)
            && (r.Value? ==> r.v == seg)
            && !r.Reported?
  {
    if !hs.exclusive {
      var k := FirstStop(PollStop(seg, hs), 0, hs.grantAfter);
      if k < hs.grantAfter {
        assert PollStop(seg, hs)(k);
      } else {
        forall n | 0 <= n < hs.grantAfter ensures PollFault(seg, hs, n).None? {
          assert !PollStop(seg, hs)(n);
        }
      }
      if forall n | 0 <= n < hs.grantAfter :: PollFault(seg, hs, n).None? {
        forall j | 0 <= j < hs.grantAfter ensures !PollStop(seg, hs)(j) { }
        FirstStopAt(PollStop(seg, hs), hs.grantAfter, hs.grantAfter);
      }
    }
  }

  /** A single-user shutdown seen at poll n, after n clean polls, raises
      `isc_shutdown` for the file. */
  lemma ShutdownStopsWait(seg: Segment, hs: Handshake, n: nat)
    requires !hs.exclusive && n < hs.grantAfter
    requires forall j | 0 <= j < n :: PollFault(seg, hs, j).None?
    requires HeaderSpec(seg, MIN_PAGE_SIZE, hs.headerIo(n)).Value? && hs.rewind(n).None?
    requires IsShutdownSingle(hs.headerFlags(n))
    ensures HandshakeSpec(seg, hs) == Thrown(Shutdown(seg.name))
  {
    FirstStopAt(PollStop(seg, hs), n, hs.grantAfter);
  }

  /** The effect of `setup_file` on the database: a file set up while the
      page space already has its primary file changes nothing; the primary
      file's handshake leaves no file registered, the exclusive bit telling
      whether the exclusive lock was granted, and the lock block kept on
      success and dropped on failure. */
  predicate SetupEffect(files0: seq<Segment>, flags0: set<DbbFlag>, lock0: Option<LockBlock>,
                        files1: seq<Segment>, flags1: set<DbbFlag>, lock1: Option<LockBlock>,
                        seg: Segment, hs: Handshake, r: Outcome<Segment>) {
    if files0 != [] then
      r == Value(seg) && files1 == files0 && flags1 == flags0 && lock1 == lock0
    else
      && r == HandshakeSpec(seg, hs)
      && files1 == []
      && flags1 == (if hs.exclusive then flags0 + {Exclusive} else flags0 - {Exclusive})
      && lock1 == (if r.Value? then Some(LockBlock(hs.devSize + hs.inoSize)) else None)
  }

  /** The OS error code a failed single open attempt leaves in errno. */
  function AttemptErrno(a: OpenAttempt): OsErrno {
    match a
    case OpenRefused(e) => Errno(e)
    case OpenInterrupted => EIntr
    case Opened(_) => Unspecified
  }

  /** The OS error code `openFile` leaves in errno: that of its last
      attempt. */
  function OpenErrno(open: (set<OpenFlag>, nat) -> OpenAttempt, q: OpenRequest): OsErrno {
    var flags := OpenFileFlags(q);
    var k := FirstStop(OpenStop(open, flags), 0, IO_RETRY);
    if k < IO_RETRY then AttemptErrno(open(flags, k)) else EIntr
  }

  /** The descriptor `maybeCloseFile` leaves: -1 once a non-negative one
      is closed. */
  function AfterMaybeClose(desc: int): int {
    if desc >= 0 then -1 else desc
  }

  /** The descriptors `maybeCloseFile` passes to close(). */
  function MaybeClosed(desc: int): seq<int> {
    if desc >= 0 then [desc] else []
  }

  /** `maybeCloseFile` and `PIO_close` test descriptors differently: the
      first closes every non-negative one, including 0; the second skips 0
      and closes negative ones other than -1. A second `maybeCloseFile`
      closes nothing. */
  lemma CloseTestsDiffer(desc: int)
    ensures (desc >= 0) != IsOpenDesc(desc) <==> desc == 0 || desc < -1
    ensures MaybeClosed(AfterMaybeClose(desc)) == []
    ensures AfterMaybeClose(AfterMaybeClose(desc)) == AfterMaybeClose(desc)
  {
  }

  /** The request `PIO_open` makes first: read-write, no special modes. */
  const READ_WRITE := OpenRequest(false, false, false)
  /** The request it falls back to: read-only. */
  const READ_ONLY := OpenRequest(false, false, true)

  /** The descriptor `PIO_open` obtains: read-write, else read-only, else
      -1. */
  function OpenDesc(open: (set<OpenFlag>, nat) -> OpenAttempt): int {
    var d := OpenSpec(open, READ_WRITE);
    if d != -1 then d else OpenSpec(open, READ_ONLY)
  }

  /** The descriptor `PIO_create`'s single open attempt obtains, or -1. */
  function CreateDesc(open: (set<OpenFlag>, nat) -> OpenAttempt, overwrite: bool): int {
    var a := open(CreateFlags(overwrite), 0);
    if a.Opened? then a.fd else -1
  }

  /** The database (`Database`): its flags, its lock block, the chain of
      files of its page space (empty while no primary file is registered),
      and a record of the descriptors it closed, in order. */
  class Database {
    var flags: set<DbbFlag>
    var lock: Option<LockBlock>
    var files: seq<Segment>
    var closeLog: seq<int>

    constructor (initialFlags: set<DbbFlag>)
      ensures flags == initialFlags && lock == None && files == [] && closeLog == []
    {
      flags := initialFlags;
      lock := None;
      files := [];
      closeLog := [];
    }

    /** `maybeCloseFile`: close a non-negative descriptor and return -1 in
        its place; leave any other as it is. */
    method MaybeCloseFile(desc: int) returns (newDesc: int)
      modifies this
      ensures newDesc == AfterMaybeClose(desc)
      ensures closeLog == old(closeLog) + MaybeClosed(desc)
      ensures files == old(files) && flags == old(flags) && lock == old(lock)
    {
      newDesc := desc;
      if desc >= 0 {
        closeLog := closeLog + [desc];
        newDesc := -1;
      }
    }

    /** `PIO_close`: close every descriptor of the chain that is neither 0
        nor -1 and mark it -1. */
    method Close()
      modifies this
      ensures files == CloseAll(old(files))
      ensures closeLog == old(closeLog) + OpenDescs(old(files))
      ensures flags == old(flags) && lock == old(lock)
    {
      ghost var chain := files;
      var i := 0;
      while i < |files|
        invariant 0 <= i <= |files| == |chain|
        invariant forall j | 0 <= j < i :: files[j] == CloseOne(chain[j])
        invariant forall j | i <= j < |files| :: files[j] == chain[j]
        invariant closeLog == old(closeLog) + OpenDescs(chain[..i])
        invariant flags == old(flags) && lock == old(lock)
      {
        ghost var closedNow := OpenDescsStep(chain, i);
        CloseSegment(i);
        i := i + 1;
      }
      assert chain[..i] == chain;
      assert files == CloseAll(chain);
    }

    /** One step of `PIO_close`: close segment i if its descriptor is
        neither 0 nor -1. */
    method CloseSegment(i: nat)
      requires i < |files|
      modifies this
      ensures files == old(files)[i := CloseOne(old(files)[i])]
      ensures closeLog == old(closeLog) + (if IsOpenDesc(old(files)[i].desc) then [old(files)[i].desc] else [])
      ensures flags == old(flags) && lock == old(lock)
    {
      var d := files[i].desc;
      if d != 0 && d != -1 {
        closeLog := closeLog + [d];
        files := files[i := files[i].(desc := -1)];
      }
    }

    /** `setup_file`: a new unbounded segment for the descriptor; for the
        primary file, build the lock block and run the handshake (exclusive
        no-wait, else the shared-lock wait that peeks at the header for a
        single-user shutdown and cleans up when it raises). */
    method SetupFile(name: string, desc: int, hs: Handshake) returns (r: Outcome<Segment>)
      requires hs.devSize + hs.inoSize <= LOCK_KEY_SIZE
      modifies this
      ensures SetupEffect(old(files), old(flags), old(lock), files, flags, lock,
                          NewSegment(desc, name), hs, r)
      ensures closeLog == old(closeLog)
    {
      var seg := NewSegment(desc, name);
      if files != [] {
        return Value(seg);
      }
      var lockBlock := LockBlock(hs.devSize + hs.inoSize);
      lock := Some(lockBlock);
      flags := flags + {Exclusive};
      if hs.exclusive {
        return Value(seg);
      }
      flags := flags - {Exclusive};
      assert flags == old(flags) - {Exclusive};
      var n := 0;
      while n < hs.grantAfter
        invariant 0 <= n <= hs.grantAfter
        invariant forall j | 0 <= j < n :: PollFault(seg, hs, j).None?
        invariant files == [] && lock == Some(lockBlock) && flags == old(flags) - {Exclusive}
        invariant closeLog == old(closeLog)
      {
        files := [seg];
        var h := PioHeader(files[0], MIN_PAGE_SIZE, hs.headerIo(n));
        var fault: Option<Fault> := None;
        if h.Thrown? {
          fault := Some(h.f);
        } else if hs.rewind(n).Some? {
          fault := Some(Io(IoError("lseek", name, IoReadErr, Errno(hs.rewind(n).value))));
        } else if hs.headerFlags(n) & HDR_SHUTDOWN_MASK == HDR_SHUTDOWN_SINGLE {
          fault := Some(Shutdown(name));
        }
        assert fault == PollFault(seg, hs, n);
        if fault.Some? {
          lock := None;
          files := [];
          FirstStopAt(PollStop(seg, hs), n, hs.grantAfter);
          return Thrown(fault.value);
        }
        files := [];
        n := n + 1;
      }
      FirstStopAt(PollStop(seg, hs), n, hs.grantAfter);
      return Value(seg);
    }

    /** `PIO_open`: open read-write, else read-only (marking the database
        as being opened read-only when this is its primary file), else
        raise; then set the file up under `string`, the name the caller
        passed first, closing the descriptor if that raises. */
    method Open(setupName: string, fileName: string, open: (set<OpenFlag>, nat) -> OpenAttempt,
                hs: Handshake) returns (r: Outcome<Segment>)
      requires hs.devSize + hs.inoSize <= LOCK_KEY_SIZE
      modifies this
      ensures OpenDesc(open) == -1 ==>
                && r == Thrown(Io(IoError("open", fileName, IoOpenErr, OpenErrno(open, READ_ONLY))))
                && files == old(files) && flags == old(flags) && lock == old(lock)
                && closeLog == old(closeLog)
      ensures OpenDesc(open) != -1 ==>
                var flags0 := if OpenSpec(open, READ_WRITE) == -1 && old(files) == []
                              then old(flags) + {BeingOpenedReadOnly} else old(flags);
                && SetupEffect(old(files), flags0, old(lock), files, flags, lock,
                               NewSegment(OpenDesc(open), setupName), hs, r)
                && closeLog == old(closeLog) + (if r.Thrown? then [OpenDesc(open)] else [])
    {
      var desc := OpenFile(open, READ_WRITE);
      if desc == -1 {
        desc := OpenFile(open, READ_ONLY);
        if desc == -1 {
          return Thrown(Io(IoError("open", fileName, IoOpenErr, OpenErrno(open, READ_ONLY))));
        }
        if files == [] {
          flags := flags + {BeingOpenedReadOnly};
        }
      }
      r := SetupFile(setupName, desc, hs);
      if r.Thrown? {
        closeLog := closeLog + [desc];
      }
    }

    /** `PIO_create`: one open attempt with the creation flags, raising
        `open O_CREAT` when it fails; then set the file up under its
        expanded name, closing the descriptor if that raises. */
    method Create(fileName: string, expandedName: string, overwrite: bool,
                  open: (set<OpenFlag>, nat) -> OpenAttempt, hs: Handshake) returns (r: Outcome<Segment>)
      requires hs.devSize + hs.inoSize <= LOCK_KEY_SIZE
      modifies this
      ensures CreateDesc(open, overwrite) == -1 ==>
                && r == Thrown(Io(IoError("open O_CREAT", fileName, IoCreateErr,
                                          AttemptErrno(open(CreateFlags(overwrite), 0)))))
                && files == old(files) && flags == old(flags) && lock == old(lock)
                && closeLog == old(closeLog)
      ensures CreateDesc(open, overwrite) != -1 ==>
                && SetupEffect(old(files), old(flags), old(lock), files, flags, lock,
                               NewSegment(CreateDesc(open, overwrite), expandedName), hs, r)
                && closeLog == old(closeLog) + (if r.Thrown? then [CreateDesc(open, overwrite)] else [])
    {
      var a := open(CreateFlags(overwrite), 0);
      if !a.Opened? {
        return Thrown(Io(IoError("open O_CREAT", fileName, IoCreateErr, AttemptErrno(a))));
      }
      var desc := a.fd;
      r := SetupFile(expandedName, desc, hs);
      if r.Thrown? {
        closeLog := closeLog + [desc];
      }
    }

    /** `PIO_add_file`: create the file, start it at page `start`, end the
        last segment of the chain just before it and link it there; the
        result is the new file's sequence number, the number of files
        before it (in USHORT arithmetic). */
    method AddFile(fileName: string, expandedName: string, start: ULong,
                   open: (set<OpenFlag>, nat) -> OpenAttempt, hs: Handshake) returns (r: Outcome<nat>)
      requires files != []
      requires hs.devSize + hs.inoSize <= LOCK_KEY_SIZE
      modifies this
      ensures r.Value? <==> CreateDesc(open, false) != -1
      ensures r.Value? ==>
                && r.v == |old(files)| % USHORT_MODULUS
                && files == Append(old(files), NewSegment(CreateDesc(open, false), expandedName), start)
      ensures !r.Value? ==>
                && r == Thrown(Io(IoError("open O_CREAT", fileName, IoCreateErr,
                                          AttemptErrno(open(CreateFlags(false), 0)))))
                && files == old(files)
      ensures flags == old(flags) && lock == old(lock) && closeLog == old(closeLog)
    {
      var created := Create(fileName, expandedName, false, open, hs);
      if !created.Value? {
        return Propagate(created);
      }
      var newFile := created.v.(minPage := start);
      var sequence := 1;
      var k := 0;
      while k + 1 < |files|
        invariant 0 <= k < |files|
        invariant sequence == (k + 1) % USHORT_MODULUS
      {
        sequence := (sequence + 1) % USHORT_MODULUS;
        k := k + 1;
      }
      files := files[..k] + [files[k].(maxPage := Wrap32(start - 1))] + [newFile];
      return Value(sequence);
    }

    /** `PIO_force_write` (builds where fcntl cannot change the modes):
        when the request differs from the file's mode bits, close the file,
        reopen it with the requested modes and its read-only access, raise
        if that fails, and record the new modes. */
    method ForceWrite(k: nat, forcedWrites: bool, notUseFsCache: bool,
                      open: (set<OpenFlag>, nat) -> OpenAttempt) returns (r: Outcome<()>)
      requires k < |files|
      modifies this
      ensures |files| == |old(files)|
      ensures forall j | 0 <= j < |files| && j != k :: files[j] == old(files)[j]
      ensures flags == old(flags) && lock == old(lock)
      ensures !ModesDiffer(old(files)[k].flags, forcedWrites, notUseFsCache) ==>
                r == Value(()) && files == old(files) && closeLog == old(closeLog)
      ensures ModesDiffer(old(files)[k].flags, forcedWrites, notUseFsCache) ==>
                var q := OpenRequest(forcedWrites, notUseFsCache, ReadOnly in old(files)[k].flags);
                var d := OpenSpec(open, q);
                && closeLog == old(closeLog) + MaybeClosed(old(files)[k].desc)
                && files[k].desc == d
                && (d == -1 <==> r.Thrown?)
                && (r.Thrown? ==>
                      && r == Thrown(Io(IoError("re open() for SYNC/DIRECT", old(files)[k].name,
                                                IoOpenErr, OpenErrno(open, q))))
                      && files[k] == old(files)[k].(desc := -1))
                && (r.Value? ==>
                      files[k] == old(files)[k].(desc := d,
                                                 flags := SetModes(old(files)[k].flags, forcedWrites, notUseFsCache)))
    {
      var file := files[k];
      if !ModesDiffer(file.flags, forcedWrites, notUseFsCache) {
        return Value(());
      }
      var closed := MaybeCloseFile(file.desc);
      files := files[k := file.(desc := closed)];
      var q := OpenRequest(forcedWrites, notUseFsCache, ReadOnly in file.flags);
      var desc := OpenFile(open, q);
      files := files[k := files[k].(desc := desc)];
      if desc == -1 {
        return Thrown(Io(IoError("re open() for SYNC/DIRECT", file.name, IoOpenErr, OpenErrno(open, q))));
      }
      files := files[k := files[k].(flags := SetModes(file.flags, forcedWrites, notUseFsCache))];
      return Value(());
    }
  }
}
