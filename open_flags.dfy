/** Flag bookkeeping: the open(2) flags that `openFile` and `PIO_create`
    compose, and the force-write / no-filesystem-cache mode bits that
    `PIO_force_write` keeps in `fil_flags`. */
module OpenFlags {
  import opened PioTypes

  /** open(2) flags; `Sync` is whichever of O_DSYNC, O_SYNC, O_FSYNC the
      platform has. */
  datatype OpenFlag = RdOnly | RdWr | Create | Trunc | Excl | Sync | Direct | Binary

  /** What an `openFile` call asks for. */
  datatype OpenRequest = OpenRequest(forcedWrites: bool, notUseFsCache: bool, readOnly: bool)

  /** The flags `openFile` passes to open(2) (builds other than the
      synchronous-I/O server). */
  function OpenFileFlags(q: OpenRequest): set<OpenFlag> {
    {Binary} + (if q.readOnly then {RdOnly} else {RdWr})
      + (if q.forcedWrites then {Sync} else {})
      + (if q.notUseFsCache then {Direct} else {})
  }

  /** Reading a request back from an open-flag set. */
  function RequestOf(f: set<OpenFlag>): OpenRequest {
    OpenRequest(Sync in f, Direct in f, RdOnly in f)
  }

  /** The composed flags open for reading and writing or for reading only,
      never both; they never create or truncate; and they carry the whole
      request, which can be read back from them. */
  lemma OpenFileFlagsFaithful(q: OpenRequest)
    ensures var f := OpenFileFlags(q);
            && Binary in f
            && (RdOnly in f <==> RdWr !in f)
            && Create !in f && Trunc !in f && Excl !in f
            && RequestOf(f) == q
  {
  }

  /** Two requests that compose the same flags are the same request. */
  lemma OpenFileFlagsInjective(q1: OpenRequest, q2: OpenRequest)
    requires OpenFileFlags(q1) == OpenFileFlags(q2)
    ensures q1 == q2
  {
    OpenFileFlagsFaithful(q1);
    OpenFileFlagsFaithful(q2);
  }

  /** The flags `PIO_create` passes to open(2): read-write, created, and
      either truncated (overwrite) or exclusive. */
  function CreateFlags(overwrite: bool): (f: set<OpenFlag>)
    ensures RdWr in f && Create in f && Binary in f && RdOnly !in f
    ensures (Trunc in f <==> overwrite) && (Excl in f <==> !overwrite)
    ensures Sync !in f && Direct !in f
  {
    {RdWr, Create, Binary} + (if overwrite then {Trunc} else {Excl})
  }

  /** Creating never uses the flags of an ordinary open. */
  lemma CreateIsNotOpen(overwrite: bool, q: OpenRequest)
    ensures CreateFlags(overwrite) != OpenFileFlags(q)
  {
    assert Create in CreateFlags(overwrite);
  }

  /** The two mode bits of `fil_flags` against a request differ. */
  predicate ModesDiffer(flags: set<FileFlag>, forcedWrites: bool, notUseFsCache: bool) {
    forcedWrites != (ForceWrite in flags) || notUseFsCache != (NoFsCache in flags)
  }

  /** `fil_flags` after `PIO_force_write` changes the modes: clear both
      bits, then set those requested. */
  function SetModes(flags: set<FileFlag>, forcedWrites: bool, notUseFsCache: bool): set<FileFlag> {
    (flags - {ForceWrite, NoFsCache})
      + (if forcedWrites then {ForceWrite} else {})
      + (if notUseFsCache then {NoFsCache} else {})
  }

  /** Afterwards the two mode bits equal the request and every other bit is
      as it was. */
  lemma SetModesExact(flags: set<FileFlag>, forcedWrites: bool, notUseFsCache: bool)
    ensures var g := SetModes(flags, forcedWrites, notUseFsCache);
            && (ForceWrite in g <==> forcedWrites)
            && (NoFsCache in g <==> notUseFsCache)
            && (forall x | x != ForceWrite && x != NoFsCache :: x in g <==> x in flags)
            && !ModesDiffer(g, forcedWrites, notUseFsCache)
  {
  }

  /** Updating the modes to what they already are changes nothing, so the
      guard in `PIO_force_write` only saves the reopen; and repeating a
      request is a no-op. */
  lemma SetModesIdempotent(flags: set<FileFlag>, forcedWrites: bool, notUseFsCache: bool)
    ensures !ModesDiffer(flags, forcedWrites, notUseFsCache) ==>
              SetModes(flags, forcedWrites, notUseFsCache) == flags
    ensures var g := SetModes(flags, forcedWrites, notUseFsCache);
            SetModes(g, forcedWrites, notUseFsCache) == g
  {
    if !ModesDiffer(flags, forcedWrites, notUseFsCache) {
      var g := SetModes(flags, forcedWrites, notUseFsCache);
      forall x ensures x in g <==> x in flags {
        if x == ForceWrite || x == NoFsCache { }
      }
    }
  }

  /** The reopen in `PIO_force_write` asks for exactly the modes the flag
      bits record afterwards, and keeps the segment's read-only access. */
  lemma ReopenMatchesModes(flags: set<FileFlag>, forcedWrites: bool, notUseFsCache: bool)
    ensures var q := OpenRequest(forcedWrites, notUseFsCache, ReadOnly in flags);
            var g := SetModes(flags, forcedWrites, notUseFsCache);
            RequestOf(OpenFileFlags(q)) == OpenRequest(ForceWrite in g, NoFsCache in g, ReadOnly in g)
  {
    OpenFileFlagsFaithful(OpenRequest(forcedWrites, notUseFsCache, ReadOnly in flags));
  }
}
