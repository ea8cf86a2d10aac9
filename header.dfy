/** The header-page tests of the page-I/O layer: the plausibility check a
    raw device must pass before it is opened as a database, and the
    single-user shutdown test of the attach handshake. */
module Header {
  import opened PioTypes
  import ZeroFill

  /** The fields of the database header page these tests look at. */
  datatype HeaderPage = HeaderPage(
    pagType: int,     // hdr_header.pag_type
    odsVersion: int,  // hdr_ods_version
    odsMinor: int,    // hdr_ods_minor
    pageSize: int,    // hdr_page_size
    sequence: int,    // hdr_sequence
    flags: bv16)      // hdr_flags

  /** The header checks of `raw_devices_validate_database`, in the order the
      code makes them; the on-disk-structure version test is a parameter,
      since it lives outside this file. */
  function PlausibleDatabase(h: HeaderPage, isSupported: (int, int) -> bool): (ok: bool)
    ensures ok <==> h.pagType == PAG_HEADER && isSupported(h.odsVersion, h.odsMinor)
                    && MIN_PAGE_SIZE <= h.pageSize <= MAX_PAGE_SIZE
  {
    if h.pagType != PAG_HEADER then false
    else if !isSupported(h.odsVersion, h.odsMinor) then false
    else if h.pageSize < MIN_PAGE_SIZE || h.pageSize > MAX_PAGE_SIZE then false
    else true
  }

  /** A device that passes has a page size the database can have, so the
      zero-fill batches on it are between 8 and 128 pages long. */
  lemma PlausiblePageSize(h: HeaderPage, isSupported: (int, int) -> bool)
    requires PlausibleDatabase(h, isSupported)
    ensures h.pageSize >= 0 && ValidPageSize(h.pageSize)
    ensures 8 <= ZeroFill.BatchPages(h.pageSize) <= 128
  {
  }

  /** The sequence number is not checked, so a continuation file passes
      exactly when the same header as a primary file would; nor are the
      header flags. */
  lemma PlausibleIgnoresSequenceAndFlags(h: HeaderPage, isSupported: (int, int) -> bool,
                                         sequence: int, flags: bv16)
    ensures PlausibleDatabase(h.(sequence := sequence, flags := flags), isSupported)
            == PlausibleDatabase(h, isSupported)
  {
  }

  /** The page-size test is exactly the on-disk format's bounds: one byte
      either side of them fails. */
  lemma PlausibleBounds(h: HeaderPage, isSupported: (int, int) -> bool)
    requires h.pagType == PAG_HEADER && isSupported(h.odsVersion, h.odsMinor)
    ensures PlausibleDatabase(h.(pageSize := MIN_PAGE_SIZE), isSupported)
    ensures PlausibleDatabase(h.(pageSize := MAX_PAGE_SIZE), isSupported)
    ensures !PlausibleDatabase(h.(pageSize := MIN_PAGE_SIZE - 1), isSupported)
    ensures !PlausibleDatabase(h.(pageSize := MAX_PAGE_SIZE + 1), isSupported)
  {
  }

  /** The shutdown test of the wait loop in `setup_file`:
      `(hdr_flags & hdr_shutdown_mask) == hdr_shutdown_single`. */
  predicate IsShutdownSingle(flags: bv16) {
    flags & HDR_SHUTDOWN_MASK == HDR_SHUTDOWN_SINGLE
  }

  /** Single-user shutdown is the mode with both shutdown bits set: the
      multi-user (0x80) and full (0x1000) modes alone do not stop the wait,
      and the other header flag bits do not matter. */
  lemma ShutdownSingleBits(flags: bv16)
    ensures IsShutdownSingle(flags) <==> (flags & 0x80 == 0x80 && flags & 0x1000 == 0x1000)
    ensures IsShutdownSingle(flags) <==> IsShutdownSingle(flags & 0x1080)
    ensures !IsShutdownSingle(0x80) && !IsShutdownSingle(0x1000) && !IsShutdownSingle(0)
  {
  }
}
