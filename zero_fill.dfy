/** Bulk zero-fill (`PIO_init_data`): write zero pages from a start page
    on, in batches of one zero buffer, each batch through the write retry
    loop. */
module ZeroFill {
  import opened PioTypes
  import opened Status
  import opened FileChain
  import opened Retry

  /** Pages per batch: the zero buffer divided by the page size. */
  function BatchPages(pageSize: nat): (b: nat)
    requires ValidPageSize(pageSize)
    ensures 8 <= b <= 128
  {
    DivBounds(pageSize);
    ZERO_BUF_SIZE / pageSize
  }

  lemma DivBounds(pageSize: nat)
    requires ValidPageSize(pageSize)
    ensures 8 <= ZERO_BUF_SIZE / pageSize <= 128
  {
    var q := ZERO_BUF_SIZE / pageSize;
    assert ZERO_BUF_SIZE == q * pageSize + ZERO_BUF_SIZE % pageSize;
    assert (q + 1) * pageSize == q * pageSize + pageSize;
    if q < 8 {
      MulMono(q + 1, 8, pageSize);
    }
    if q > 128 {
      MulMono(129, q, pageSize);
    }
  }

  /** A whole number of batches is a multiple of the batch size. */
  lemma MulMod(k: nat, b: nat)
    requires b > 0
    ensures (k * b) % b == 0
  {
    var q := (k * b) / b;
    var r := (k * b) % b;
    assert k * b == q * b + r;
    assert (k - q) * b == r;
    if k > q {
      MulMono(1, k - q, b);
    } else if k < q {
      MulMono(1, q - k, b);
    }
  }

  lemma MulMono(a: nat, c: nat, b: nat)
    requires a <= c
    ensures a * b <= c * b
  {
    var d := c - a;
    assert c * b == a * b + d * b;
  }

  /** The number of batches needed to cover `n` pages: ceil(n / b). */
  function Batches(n: nat, b: nat): nat
    requires b > 0
  {
    (n + b - 1) / b
  }

  /** Batch k is started exactly when the pages before it fall short of n. */
  lemma BatchesBound(n: nat, b: nat, k: nat)
    requires b > 0
    ensures k * b < n <==> k < Batches(n, b)
  {
    var q := Batches(n, b);
    var r := (n + b - 1) % b;
    assert n + b - 1 == q * b + r;
    if k < q {
      MulMono(k + 1, q, b);
      assert (k + 1) * b == k * b + b;
    } else {
      MulMono(q, k, b);
    }
  }

  /** The guard near the segment start: `fil_min_page + 8 > startPage`,
      in ULONG arithmetic. */
  predicate TooNearStart(s: Segment, startPage: ULong) {
    Wrap32(s.minPage + 8) > startPage
  }

  /** How many pages the loop aims at: the rest of the segment after the
      start page, `fil_max_page - startPage`, capped by the request. */
  function InitBy(s: Segment, startPage: ULong, initPages: nat): (n: nat)
    requires startPage <= s.maxPage
    ensures n <= initPages
  {
    Min(s.maxPage - startPage, initPages)
  }

  /** The count returned after a run without failures: whole batches up to
      or past `initBy` pages, the last batch capped by the pages left. */
  function ZeroFillCount(initBy: nat, initPages: nat, b: nat): nat
    requires b > 0
  {
    Min(Batches(initBy, b) * b, initPages)
  }

  /** The count covers at least the aimed-at pages, never more than were
      requested, overshoots by less than one batch, and is a whole number of
      batches unless it is the whole request. */
  lemma ZeroFillCountBounds(initBy: nat, initPages: nat, b: nat)
    requires b > 0 && initBy <= initPages
    ensures var n := ZeroFillCount(initBy, initPages, b);
            && initBy <= n <= initPages
            && n < initBy + b
            && (n == initPages || n % b == 0)
  {
    var k := Batches(initBy, b);
    BatchesBound(initBy, b, k);
    if k > 0 {
      BatchesBound(initBy, b, k - 1);
      assert (k - 1) * b == k * b - b;
    }
    MulMod(k, b);
  }

  /** The write oracle of the batch starting at `page`. */
  function BatchIo(io: (nat, nat) -> Transfer, page: nat): nat -> Transfer {
    (r: nat) => io(page, r)
  }

  /** The outcome of the write retry loop of batch k of a run from
      `startPage` in segment `idx`. `PIO_init_data` spells this loop out
      instead of calling `PIO_write`; on a segment whose descriptor is open
      (the only kind a run starts on) the two loops are the same, so the
      batch is stated with the write loop's specification. */
  function BatchWrite(chain: seq<Segment>, idx: nat, startPage: ULong, k: nat, pageSize: nat,
                      wideOffT: bool, hasSink: bool, io: (nat, nat) -> Transfer): Outcome<bool>
    requires idx < |chain| && ValidPageSize(pageSize)
  {
    var page := startPage + k * BatchPages(pageSize);
    // every batch a run starts lies below 2^32 (`BatchesInRange`); the
    // other branch only makes the function total
    if page < ULONG_MODULUS
    then WriteSpec(chain, idx, page, pageSize, wideOffT, hasSink, BatchIo(io, page))
    else Value(true)
  }

  function BatchFails(chain: seq<Segment>, idx: nat, startPage: ULong, pageSize: nat,
                      wideOffT: bool, hasSink: bool, io: (nat, nat) -> Transfer): nat -> bool
    requires idx < |chain| && ValidPageSize(pageSize)
  {
    (k: nat) => !BatchWrite(chain, idx, startPage, k, pageSize, wideOffT, hasSink, io).Value?
  }

  lemma BatchFailsAt(chain: seq<Segment>, idx: nat, startPage: ULong, k: nat, pageSize: nat,
                     wideOffT: bool, hasSink: bool, io: (nat, nat) -> Transfer)
    requires idx < |chain| && ValidPageSize(pageSize)
    ensures BatchFails(chain, idx, startPage, pageSize, wideOffT, hasSink, io)(k)
            == !BatchWrite(chain, idx, startPage, k, pageSize, wideOffT, hasSink, io).Value?
  {
  }

  /** No batch before batch k fails. */
  predicate NoneFail(chain: seq<Segment>, idx: nat, startPage: ULong, pageSize: nat,
                     wideOffT: bool, hasSink: bool, io: (nat, nat) -> Transfer, k: nat)
    requires idx < |chain| && ValidPageSize(pageSize)
  {
    forall j: nat | j < k :: !BatchFails(chain, idx, startPage, pageSize, wideOffT, hasSink, io)(j)
  }

  lemma NoneFailExtend(chain: seq<Segment>, idx: nat, startPage: ULong, pageSize: nat,
                       wideOffT: bool, hasSink: bool, io: (nat, nat) -> Transfer, k: nat)
    requires idx < |chain| && ValidPageSize(pageSize)
    requires NoneFail(chain, idx, startPage, pageSize, wideOffT, hasSink, io, k)
    requires BatchWrite(chain, idx, startPage, k, pageSize, wideOffT, hasSink, io).Value?
    ensures NoneFail(chain, idx, startPage, pageSize, wideOffT, hasSink, io, k + 1)
  {
    BatchFailsAt(chain, idx, startPage, k, pageSize, wideOffT, hasSink, io);
  }

  /** Every batch a run starts begins at a ULONG page inside the segment:
      below `fil_max_page`, hence below 2^32. */
  lemma BatchesInRange(s: Segment, startPage: ULong, initPages: nat, pageSize: nat, k: nat)
    requires ValidPageSize(pageSize) && startPage <= s.maxPage
    requires k < Batches(InitBy(s, startPage, initPages), BatchPages(pageSize))
    ensures startPage + k * BatchPages(pageSize) < s.maxPage
    ensures startPage + k * BatchPages(pageSize) < ULONG_MODULUS
  {
    BatchesBound(InitBy(s, startPage, initPages), BatchPages(pageSize), k);
  }

  /** The batches of a run in segment `idx` past the guard: they run in
      order and the first failing one decides the outcome; without a
      failure the count is `ZeroFillCount`. */
  function RunSpec(chain: seq<Segment>, idx: nat, startPage: ULong, initPages: nat, pageSize: nat,
                   wideOffT: bool, hasSink: bool, io: (nat, nat) -> Transfer): Outcome<nat>
    requires idx < |chain| && ValidPageSize(pageSize) && startPage <= chain[idx].maxPage
    requires chain[idx].desc != -1
  {
    var b := BatchPages(pageSize);
    var initBy := InitBy(chain[idx], startPage, initPages);
    var n := Batches(initBy, b);
    var k := FirstStop(BatchFails(chain, idx, startPage, pageSize, wideOffT, hasSink, io), 0, n);
    if k == n then Value(ZeroFillCount(initBy, initPages, b))
    else Propagate(BatchWrite(chain, idx, startPage, k, pageSize, wideOffT, hasSink, io))
  }

  /** What `PIO_init_data` returns. The start page must resolve and lie at
      least eight pages into its segment (else 0); then the batches run
      (a failing batch's retry loop returns the failure value 0, not the
      pages written so far). */
  function InitDataSpec(chain: seq<Segment>, from: nat, startPage: ULong, initPages: nat, pageSize: nat,
                        wideOffT: bool, hasSink: bool, io: (nat, nat) -> Transfer): Outcome<nat>
    requires from <= |chain| && ValidPageSize(pageSize)
  {
    var s := SeekFile(chain, from, startPage, pageSize, wideOffT, hasSink);
    if !s.Value? then Propagate(s)
    else if TooNearStart(chain[s.v.index], startPage) then Value(0)
    else RunSpec(chain, s.v.index, startPage, initPages, pageSize, wideOffT, hasSink, io)
  }

  /** A run whose batch k is the first to fail ends with that batch's
      failure. */
  lemma RunStopsAt(chain: seq<Segment>, idx: nat, startPage: ULong, initPages: nat, pageSize: nat,
                   wideOffT: bool, hasSink: bool, io: (nat, nat) -> Transfer, k: nat)
    requires idx < |chain| && ValidPageSize(pageSize) && startPage <= chain[idx].maxPage
    requires chain[idx].desc != -1
    requires k < Batches(InitBy(chain[idx], startPage, initPages), BatchPages(pageSize))
    requires NoneFail(chain, idx, startPage, pageSize, wideOffT, hasSink, io, k)
    requires !BatchWrite(chain, idx, startPage, k, pageSize, wideOffT, hasSink, io).Value?
    ensures RunSpec(chain, idx, startPage, initPages, pageSize, wideOffT, hasSink, io)
            == Propagate(BatchWrite(chain, idx, startPage, k, pageSize, wideOffT, hasSink, io))
  {
    var n := Batches(InitBy(chain[idx], startPage, initPages), BatchPages(pageSize));
    BatchFailsAt(chain, idx, startPage, k, pageSize, wideOffT, hasSink, io);
    FirstStopAt(BatchFails(chain, idx, startPage, pageSize, wideOffT, hasSink, io), k, n);
  }

  /** A run none of whose batches fails returns the zero-fill count. */
  lemma RunCompletes(chain: seq<Segment>, idx: nat, startPage: ULong, initPages: nat, pageSize: nat,
                     wideOffT: bool, hasSink: bool, io: (nat, nat) -> Transfer, k: nat)
    requires idx < |chain| && ValidPageSize(pageSize) && startPage <= chain[idx].maxPage
    requires chain[idx].desc != -1
    requires k == Batches(InitBy(chain[idx], startPage, initPages), BatchPages(pageSize))
    requires NoneFail(chain, idx, startPage, pageSize, wideOffT, hasSink, io, k)
    ensures var b := BatchPages(pageSize);
            RunSpec(chain, idx, startPage, initPages, pageSize, wideOffT, hasSink, io)
            == Value(ZeroFillCount(InitBy(chain[idx], startPage, initPages), initPages, b))
  {
    FirstStopAt(BatchFails(chain, idx, startPage, pageSize, wideOffT, hasSink, io), k, k);
  }

  /** One batch of the loop: the pages done so far are k whole batches, and
      after writing `min(b, left)` more they are k + 1 batches, capped. */
  lemma BatchStep(k: nat, b: nat, initPages: nat, initBy: nat, done: nat)
    requires b > 0 && initBy <= initPages
    requires done == Min(k * b, initPages) && done < initBy
    ensures done == k * b
    ensures done + Min(b, initPages - done) == Min((k + 1) * b, initPages)
    ensures Min(b, initPages - done) > 0
  {
    assert (k + 1) * b == k * b + b;
  }

  /** Leaving the loop after k batches: k is the batch count and the pages
      done are the count the run returns. */
  lemma BatchExit(k: nat, b: nat, initPages: nat, initBy: nat, done: nat)
    requires b > 0 && initBy <= initPages
    requires done == Min(k * b, initPages) && done >= initBy
    requires k > 0 ==> (k - 1) * b < initBy
    ensures k == Batches(initBy, b)
    ensures done == ZeroFillCount(initBy, initPages, b)
  {
    BatchesBound(initBy, b, k);
    if k > 0 { BatchesBound(initBy, b, k - 1); }
  }

  /** `PIO_init_data` (positioned-I/O build). */
  method InitData(chain: seq<Segment>, from: nat, startPage: ULong, initPages: nat, pageSize: nat,
                  wideOffT: bool, hasSink: bool, io: (nat, nat) -> Transfer) returns (r: Outcome<nat>)
    requires from <= |chain| && ValidPageSize(pageSize)
    requires initPages < USHORT_MODULUS
    ensures r == InitDataSpec(chain, from, startPage, initPages, pageSize, wideOffT, hasSink, io)
  {
    var s := SeekFile(chain, from, startPage, pageSize, wideOffT, hasSink);
    if !s.Value? {
      return Propagate(s);
    }
    var file := s.v.index;
    if Wrap32(chain[file].minPage + 8) > startPage {
      return Value(0);
    }
    r := InitRun(chain, file, startPage, initPages, pageSize, wideOffT, hasSink, io);
  }

  /** One batch of `PIO_init_data`: the write retry loop at the batch's
      first page. */
  method WriteBatch(chain: seq<Segment>, file: nat, startPage: ULong, ghost k: nat, i: ULong, pageSize: nat,
                    wideOffT: bool, hasSink: bool, io: (nat, nat) -> Transfer) returns (w: Outcome<bool>)
    requires file < |chain| && ValidPageSize(pageSize) && chain[file].desc != -1
    requires i == startPage + k * BatchPages(pageSize)
    ensures w == BatchWrite(chain, file, startPage, k, pageSize, wideOffT, hasSink, io)
  {
    w := PioWrite(chain, file, i, pageSize, wideOffT, hasSink, BatchIo(io, i));
  }

  /** The batch loop of `PIO_init_data`, from the resolved segment on. */
  method InitRun(chain: seq<Segment>, file: nat, startPage: ULong, initPages: nat, pageSize: nat,
                 wideOffT: bool, hasSink: bool, io: (nat, nat) -> Transfer) returns (r: Outcome<nat>)
    requires file < |chain| && ValidPageSize(pageSize) && startPage <= chain[file].maxPage
    requires chain[file].desc != -1
    requires initPages < USHORT_MODULUS
    ensures r == RunSpec(chain, file, startPage, initPages, pageSize, wideOffT, hasSink, io)
  {
    var b := ZERO_BUF_SIZE / pageSize;
    assert b == BatchPages(pageSize);
    var leftPages := initPages;
    var initBy := Min(chain[file].maxPage - startPage, leftPages);
    ghost var n := Batches(initBy, b);
    ghost var k: nat := 0;
    var i: int := startPage;
    while i < startPage + initBy
      invariant 0 <= leftPages <= initPages
      invariant i == startPage + (initPages - leftPages)
      invariant initPages - leftPages == Min(k * b, initPages)
      invariant k > 0 ==> (k - 1) * b < initBy
      invariant NoneFail(chain, file, startPage, pageSize, wideOffT, hasSink, io, k)
      decreases leftPages
    {
      BatchStep(k, b, initPages, initBy, initPages - leftPages);
      var writePages := Min(b, leftPages);
      var w := WriteBatch(chain, file, startPage, k, i, pageSize, wideOffT, hasSink, io);
      if !w.Value? {
        BatchesBound(initBy, b, k);
        RunStopsAt(chain, file, startPage, initPages, pageSize, wideOffT, hasSink, io, k);
        return Propagate(w);
      }
      NoneFailExtend(chain, file, startPage, pageSize, wideOffT, hasSink, io, k);
      leftPages := leftPages - writePages;
      i := i + writePages;
      k := k + 1;
    }
    BatchExit(k, b, initPages, initBy, initPages - leftPages);
    RunCompletes(chain, file, startPage, initPages, pageSize, wideOffT, hasSink, io, k);
    var count: nat := initPages - leftPages;
    return Value(count);
  }

  /** A batch whose retries all fell short is still counted: with every
      write short, the run returns the full count. */
  lemma ShortBatchesCounted(chain: seq<Segment>, from: nat, startPage: ULong, initPages: nat,
                            pageSize: nat, wideOffT: bool, hasSink: bool, io: (nat, nat) -> Transfer)
    requires from <= |chain| && ValidPageSize(pageSize)
    requires wideOffT
    requires forall p: nat, a: nat :: io(p, a).Short?
    requires SeekFile(chain, from, startPage, pageSize, wideOffT, hasSink).Value?
    ensures var s := SeekFile(chain, from, startPage, pageSize, wideOffT, hasSink);
            var seg := chain[s.v.index];
            !TooNearStart(seg, startPage) ==>
              InitDataSpec(chain, from, startPage, initPages, pageSize, wideOffT, hasSink, io)
                == Value(ZeroFillCount(InitBy(seg, startPage, initPages), initPages, BatchPages(pageSize)))
  {
    var s := SeekFile(chain, from, startPage, pageSize, wideOffT, hasSink);
    var seg := chain[s.v.index];
    if !TooNearStart(seg, startPage) {
      var b := BatchPages(pageSize);
      var initBy := InitBy(seg, startPage, initPages);
      var n := Batches(initBy, b);
      var fails := BatchFails(chain, s.v.index, startPage, pageSize, wideOffT, hasSink, io);
      forall k: nat | k < n ensures !fails(k) {
        var page := startPage + k * b;
        BatchesBound(initBy, b, k);
        if page < ULONG_MODULUS {
          assert Holds(seg, page);
          assert FindHolder(chain, s.v.index, page) == s.v.index;
          WriteExhaustion(chain, s.v.index, page, pageSize, wideOffT, hasSink, BatchIo(io, page));
        }
      }
      FirstStopAt(fails, n, n);
    }
  }

  /** The zero-fill scenario: a single unbounded segment, page size 4096
      (32 pages per batch), ten pages from page 8 are all written. */
  lemma ZeroFillScenario()
    ensures BatchPages(4096) == 32
    ensures ZeroFillCount(InitBy(NewSegment(3, "db"), 8, 10), 10, 32) == 10
    ensures !TooNearStart(NewSegment(3, "db"), 8)
  {
  }

  /** A write oracle whose every attempt transfers the whole batch. */
  function AlwaysFull(): (nat, nat) -> Transfer {
    (p: nat, a: nat) => Full
  }

  /** In that scenario the one batch, at page 8, is written at once. */
  lemma ScenarioBatchWritten()
    ensures BatchWrite([NewSegment(3, "db")], 0, 8, 0, 4096, true, true, AlwaysFull()) == Value(true)
  {
    var chain := [NewSegment(3, "db")];
    var io := BatchIo(AlwaysFull(), 8);
    assert FindHolder(chain, 0, 8) == 0;
    assert SeekFile(chain, 0, 8, 4096, true, true).Value?;
    assert io(0) == Full;
    FirstStopAt(TransferStop(io), 0, IO_RETRY);
  }

  /** And `PIO_init_data` itself returns 10 there. */
  lemma ZeroFillScenarioResult()
    ensures InitDataSpec([NewSegment(3, "db")], 0, 8, 10, 4096, true, true, AlwaysFull()) == Value(10)
  {
    var chain := [NewSegment(3, "db")];
    var io := AlwaysFull();
    assert FindHolder(chain, 0, 8) == 0;
    assert SeekFile(chain, 0, 8, 4096, true, true) == Value(Pos(0, 8 * 4096));
    ZeroFillScenario();
    ScenarioBatchWritten();
    NoneFailExtend(chain, 0, 8, 4096, true, true, io, 0);
    assert Batches(10, 32) == 1;
    RunCompletes(chain, 0, 8, 10, 4096, true, true, io, 1);
  }

  /** The cap on the loop is the segment's remaining page count, but a
      batch is capped only by the pages left: near the end of a bounded
      segment the count runs past `fil_max_page`. */
  lemma ZeroFillPassesSegmentEnd()
    ensures var seg := NewSegment(3, "db").(maxPage := 20);
            var initBy := InitBy(seg, 10, 100);
            initBy == 10 && ZeroFillCount(initBy, 100, 32) == 32
  {
  }
}
