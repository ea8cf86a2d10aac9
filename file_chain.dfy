/** The file chain: the ordered segments of a database, page-number to
    (segment, byte offset) translation, the effect on the chain of appending
    and of closing, and the page count derived from a file's size. */
module FileChain {
  import opened PioTypes
  import opened Status

  /** The segment owns the page. */
  predicate Holds(s: Segment, page: ULong) {
    s.minPage <= page <= s.maxPage
  }

  /** `lseek_offset == (FB_UINT64)(off_t) lseek_offset`: with a 64-bit
      `off_t` the round trip is the identity; with a 32-bit one it holds
      exactly below 2^31. */
  predicate FitsOffT(offset: nat, wideOffT: bool) {
    wideOffT || offset < 0x8000_0000
  }

  /** A resolved page address. */
  datatype Pos = Pos(index: nat, offset: nat)

  /** The first segment at or after `from` that owns the page, or |chain|
      when none does: the walk along `fil_next`. */
  function FindHolder(chain: seq<Segment>, from: nat, page: ULong): (k: nat)
    requires from <= |chain|
    decreases |chain| - from
    ensures from <= k <= |chain|
    ensures k < |chain| ==> Holds(chain[k], page)
    ensures forall j | from <= j < k :: !Holds(chain[j], page)
  {
    if from == |chain| then from
    else if Holds(chain[from], page) then from
    else FindHolder(chain, from + 1, page)
  }

  /** Page number relative to the segment, in ULONG arithmetic:
      `page -= fil_min_page - fil_fudge`. */
  function RelativePage(s: Segment, page: ULong): ULong {
    Wrap32(page - Wrap32(s.minPage - s.fudge))
  }

  /** The relative page is `page - min + fudge`, reduced to 32 bits; it is
      exact whenever that sum fits. */
  lemma RelativePageExact(s: Segment, page: ULong)
    requires Holds(s, page)
    ensures RelativePage(s, page) == (page - s.minPage + s.fudge) % ULONG_MODULUS
    ensures page - s.minPage + s.fudge < ULONG_MODULUS ==>
              RelativePage(s, page) == page - s.minPage + s.fudge
  {
    var m := ULONG_MODULUS;
    var w := Wrap32(s.minPage - s.fudge);
    var a := (w - (s.minPage - s.fudge)) / m;
    assert w == s.minPage - s.fudge + a * m;
    var x := page - s.minPage + s.fudge;
    assert page - w == x - a * m;
    ModShift(x, a);
  }

  lemma ModShift(x: int, a: int)
    ensures (x - a * ULONG_MODULUS) % ULONG_MODULUS == x % ULONG_MODULUS
  {
  }

  /** `seek_file`: walk to the first owner of the page, then reject a
      closed descriptor or an offset that `off_t` cannot hold. */
  function SeekFile(chain: seq<Segment>, from: nat, page: ULong, pageSize: nat,
                    wideOffT: bool, hasSink: bool): (r: Outcome<Pos>)
    requires from <= |chain|
    requires pageSize < USHORT_MODULUS
    ensures r == Thrown(Corrupt(158)) <==> forall j | from <= j < |chain| :: !Holds(chain[j], page)
    ensures r.Value? ==>
              && from <= r.v.index < |chain|
              && Holds(chain[r.v.index], page)
              && (forall j | from <= j < r.v.index :: !Holds(chain[j], page))
              && chain[r.v.index].desc != -1
              && r.v.offset == RelativePage(chain[r.v.index], page) * pageSize
              && FitsOffT(r.v.offset, wideOffT)
    ensures !r.Value? && r != Thrown(Corrupt(158)) ==>
              var k := FindHolder(chain, from, page);
              && k < |chain|
              && r == Classify(IoError("lseek", chain[k].name,
                                       if chain[k].desc == -1 then IoAccessErr else Io32BitExceededErr,
                                       Unspecified), hasSink)
              && (chain[k].desc == -1 || !FitsOffT(RelativePage(chain[k], page) * pageSize, wideOffT))
  {
    var k := FindHolder(chain, from, page);
    if k == |chain| then Thrown(Corrupt(158))
    else
      var s := chain[k];
      if s.desc == -1 then Classify(IoError("lseek", s.name, IoAccessErr, Unspecified), hasSink)
      else
        var offset := RelativePage(s, page) * pageSize;
        if !FitsOffT(offset, wideOffT)
        then Classify(IoError("lseek", s.name, Io32BitExceededErr, Unspecified), hasSink)
        else Value(Pos(k, offset))
  }

  /** The retry loops re-run `seek_file` from the segment it returned; the
      walk then stops at once, with the same answer. */
  lemma SeekFromFound(chain: seq<Segment>, from: nat, page: ULong, pageSize: nat,
                      wideOffT: bool, hasSink: bool)
    requires from <= |chain| && pageSize < USHORT_MODULUS
    requires SeekFile(chain, from, page, pageSize, wideOffT, hasSink).Value?
    ensures var p := SeekFile(chain, from, page, pageSize, wideOffT, hasSink).v;
            SeekFile(chain, p.index, page, pageSize, wideOffT, hasSink) == Value(p)
  {
  }

  /** Whole-chain shape: a primary segment from page 0; each segment's
      range is non-empty and ends just before the next one begins; the last
      is unbounded. */
  predicate WellFormed(chain: seq<Segment>) {
    && |chain| > 0
    && chain[0].minPage == 0
    && (forall i | 0 <= i < |chain| :: chain[i].minPage <= chain[i].maxPage)
    && (forall i | 0 <= i < |chain| - 1 :: chain[i].maxPage + 1 == chain[i + 1].minPage)
    && chain[|chain| - 1].maxPage == MAX_ULONG
  }

  lemma {:induction false} RangesOrdered(chain: seq<Segment>, j: nat, k: nat)
    requires WellFormed(chain)
    requires j < k < |chain|
    ensures chain[j].maxPage < chain[k].minPage
    decreases k - j
  {
    if j + 1 < k {
      RangesOrdered(chain, j + 1, k);
    }
  }

  /** In a well-formed chain every page has exactly one owner, and the walk
      from the primary segment finds it. */
  lemma {:induction false} UniqueOwner(chain: seq<Segment>, page: ULong, k: nat)
    requires WellFormed(chain)
    requires k < |chain| && Holds(chain[k], page)
    ensures FindHolder(chain, 0, page) == k
    ensures forall j | 0 <= j < |chain| && j != k :: !Holds(chain[j], page)
  {
    forall j | 0 <= j < |chain| && j != k
      ensures !Holds(chain[j], page)
    {
      if j < k { RangesOrdered(chain, j, k); } else { RangesOrdered(chain, k, j); }
    }
  }

  /** Every page is owned by some segment of a well-formed chain. */
  lemma {:induction false} SomeOwner(chain: seq<Segment>, page: ULong) returns (k: nat)
    requires WellFormed(chain)
    ensures k < |chain| && Holds(chain[k], page)
  {
    k := |chain| - 1;
    while page < chain[k].minPage
      invariant k < |chain| && page <= chain[k].maxPage
      decreases k
    {
      k := k - 1;
    }
  }

  /** Resolution in a well-formed chain never reports corruption, and a
      successful one lands on the page's unique owner at
      `(page - min + fudge) * page_size`. */
  lemma ResolveWellFormed(chain: seq<Segment>, page: ULong, pageSize: nat,
                          wideOffT: bool, hasSink: bool)
    requires WellFormed(chain) && pageSize < USHORT_MODULUS
    ensures var r := SeekFile(chain, 0, page, pageSize, wideOffT, hasSink);
            && r != Thrown(Corrupt(158))
            && (r.Value? ==>
                  && (forall j | 0 <= j < |chain| && j != r.v.index :: !Holds(chain[j], page))
                  && r.v.offset == ((page - chain[r.v.index].minPage + chain[r.v.index].fudge)
                                    % ULONG_MODULUS) * pageSize)
  {
    var k := SomeOwner(chain, page);
    UniqueOwner(chain, page, k);
    RelativePageExact(chain[k], page);
  }

  /** The chain after `PIO_add_file` links `seg` starting at `start`: the
      former last segment now ends at `start - 1` (in ULONG arithmetic). */
  function Append(chain: seq<Segment>, seg: Segment, start: ULong): (c: seq<Segment>)
    requires |chain| > 0
    ensures |c| == |chain| + 1
    ensures c[..|chain| - 1] == chain[..|chain| - 1]
    ensures c[|chain| - 1] == chain[|chain| - 1].(maxPage := Wrap32(start - 1))
    ensures c[|chain|] == seg.(minPage := start)
  {
    chain[..|chain| - 1] + [chain[|chain| - 1].(maxPage := Wrap32(start - 1))]
      + [seg.(minPage := start)]
  }

  /** Appending an unbounded segment past the last one's first page keeps
      the chain well formed, with the two adjacent at `start`. */
  lemma AppendWellFormed(chain: seq<Segment>, seg: Segment, start: ULong)
    requires WellFormed(chain)
    requires chain[|chain| - 1].minPage < start && seg.maxPage == MAX_ULONG
    ensures var c := Append(chain, seg, start);
            WellFormed(c) && c[|chain| - 1].maxPage + 1 == c[|chain|].minPage == start
  {
    var c := Append(chain, seg, start);
    forall i | 0 <= i < |c| - 1
      ensures c[i].maxPage + 1 == c[i + 1].minPage
    {
      if i < |chain| - 2 {
        assert c[i] == chain[i] && c[i + 1] == chain[i + 1];
      } else if i == |chain| - 2 {
        assert c[i] == chain[i];
      }
    }
  }

  /** After the append, pages from `start` on belong to the new segment and
      earlier pages to the segment that owned them before. */
  lemma AppendResolves(chain: seq<Segment>, seg: Segment, start: ULong, page: ULong)
    requires WellFormed(chain)
    requires chain[|chain| - 1].minPage < start && seg.maxPage == MAX_ULONG
    ensures var c := Append(chain, seg, start);
            && (start <= page ==> FindHolder(c, 0, page) == |chain|)
            && (page < start ==> FindHolder(c, 0, page) == FindHolder(chain, 0, page))
  {
    var c := Append(chain, seg, start);
    AppendWellFormed(chain, seg, start);
    if start <= page {
      UniqueOwner(c, page, |chain|);
    } else {
      var k := SomeOwner(chain, page);
      UniqueOwner(chain, page, k);
      assert Holds(c[k], page);
      UniqueOwner(c, page, k);
    }
  }

  /** Two segments: the primary owns pages 0..99 and a secondary, added at
      page 100, the rest. */
  function TwoSegments(): seq<Segment> {
    Append([NewSegment(3, "a")], NewSegment(4, "b"), 100)
  }

  lemma TwoSegmentsShape()
    ensures TwoSegments() == [Segment(3, 0, 99, 0, {}, "a"), Segment(4, 100, MAX_ULONG, 0, {}, "b")]
    ensures WellFormed(TwoSegments())
  {
    AppendWellFormed([NewSegment(3, "a")], NewSegment(4, "b"), 100);
  }

  /** Page 99 resolves to the primary at its own byte offset. */
  lemma LastPrimaryPage()
    ensures SeekFile(TwoSegments(), 0, 99, 1024, false, true) == Value(Pos(0, 99 * 1024))
  {
    TwoSegmentsShape();
    var a := TwoSegments()[0];
    assert Holds(a, 99) && FindHolder(TwoSegments(), 0, 99) == 0;
    assert RelativePage(a, 99) == 99;
  }

  /** Page 100 resolves to the start of the secondary file. */
  lemma FirstSecondaryPage()
    ensures SeekFile(TwoSegments(), 0, 100, 1024, false, true) == Value(Pos(1, 0))
  {
    TwoSegmentsShape();
    var a := TwoSegments()[0];
    var b := TwoSegments()[1];
    assert !Holds(a, 100) && Holds(b, 100);
    assert FindHolder(TwoSegments(), 1, 100) == 1;
    assert FindHolder(TwoSegments(), 0, 100) == 1;
    assert RelativePage(b, 100) == 0;
  }

  /** A descriptor that `PIO_close` closes: neither 0 nor -1. */
  predicate IsOpenDesc(d: int) {
    d != 0 && d != -1
  }

  /** A segment after `PIO_close`: an open descriptor becomes -1 and
      nothing else changes. */
  function CloseOne(s: Segment): (t: Segment)
    ensures t.(desc := s.desc) == s
    ensures t.desc == if IsOpenDesc(s.desc) then -1 else s.desc
  {
    s.(desc := if IsOpenDesc(s.desc) then -1 else s.desc)
  }

  /** The chain after `PIO_close`: every segment closed, in place. */
  function CloseAll(chain: seq<Segment>): (c: seq<Segment>)
    ensures |c| == |chain|
    ensures forall i | 0 <= i < |c| :: c[i] == CloseOne(chain[i])
  {
    if chain == [] then []
    else [CloseOne(chain[0])] + CloseAll(chain[1..])
  }

  /** The descriptors `PIO_close` passes to close(), in chain order. */
  function OpenDescs(chain: seq<Segment>): (ds: seq<int>)
    ensures forall d | d in ds :: IsOpenDesc(d)
    ensures |ds| <= |chain|
  {
    if chain == [] then []
    else
      var last := chain[|chain| - 1];
      OpenDescs(chain[..|chain| - 1]) + (if IsOpenDesc(last.desc) then [last.desc] else [])
  }

  /** A chain with no open descriptor closes nothing. */
  lemma {:induction false} NoneOpen(chain: seq<Segment>)
    requires forall i | 0 <= i < |chain| :: !IsOpenDesc(chain[i].desc)
    ensures OpenDescs(chain) == []
  {
    if chain != [] {
      NoneOpen(chain[..|chain| - 1]);
    }
  }

  /** A second close closes nothing and changes nothing. */
  lemma CloseAllIdempotent(chain: seq<Segment>)
    ensures OpenDescs(CloseAll(chain)) == []
    ensures CloseAll(CloseAll(chain)) == CloseAll(chain)
  {
    NoneOpen(CloseAll(chain));
  }

  /** The descriptors closed for the first i + 1 segments: those of the
      first i, then segment i's own if it is open. */
  lemma OpenDescsStep(chain: seq<Segment>, i: nat) returns (ds: seq<int>)
    requires i < |chain|
    ensures ds == (if IsOpenDesc(chain[i].desc) then [chain[i].desc] else [])
    ensures OpenDescs(chain[..i + 1]) == OpenDescs(chain[..i]) + ds
  {
    assert chain[..i + 1][..i] == chain[..i];
    ds := if IsOpenDesc(chain[i].desc) then [chain[i].desc] else [];
  }

  /** Every descriptor the chain holds open is among those closed. */
  lemma {:induction false} OpenDescsComplete(chain: seq<Segment>, i: nat)
    requires i < |chain| && IsOpenDesc(chain[i].desc)
    ensures chain[i].desc in OpenDescs(chain)
  {
    if i < |chain| - 1 {
      OpenDescsComplete(chain[..|chain| - 1], i);
    }
  }

  /** What fstat(2) answers: the file's size, or the errno it failed with. */
  datatype FstatResult = StatSize(size: nat) | StatFailed(errno: int)

  /** `PIO_get_number_of_pages`: the file size in pages, rounded up and
      returned as ULONG; a closed descriptor or a failing fstat raises. */
  function NumberOfPages(s: Segment, stat: FstatResult, pageSize: nat): (r: Outcome<ULong>)
    requires 0 < pageSize < USHORT_MODULUS
    ensures (s.desc == -1 || stat.StatFailed?) <==> r.Thrown?
    ensures s.desc == -1 ==> r == Thrown(Io(IoError("fstat", s.name, IoAccessErr, Unspecified)))
    ensures s.desc != -1 && stat.StatFailed? ==>
              r == Thrown(Io(IoError("fstat", s.name, IoAccessErr, Errno(stat.errno))))
    ensures r.Value? ==>
              var n := (stat.size + pageSize - 1) / pageSize;
              && r.v == Wrap32(n)
              && n * pageSize >= stat.size
              && (n - 1) * pageSize < stat.size + (if stat.size == 0 then pageSize else 0)
  {
    if s.desc == -1 then Classify(IoError("fstat", s.name, IoAccessErr, Unspecified), false)
    else if stat.StatFailed? then Classify(IoError("fstat", s.name, IoAccessErr, Errno(stat.errno)), false)
    else
      var size := stat.size;
      CeilDivision(size, pageSize);
      Value(Wrap32((size + pageSize - 1) / pageSize))
  }

  lemma CeilDivision(size: nat, pageSize: nat)
    requires pageSize > 0
    ensures var n := (size + pageSize - 1) / pageSize;
            n * pageSize >= size && (n - 1) * pageSize < size + (if size == 0 then pageSize else 0)
  {
    var n := (size + pageSize - 1) / pageSize;
    var r := (size + pageSize - 1) % pageSize;
    assert size + pageSize - 1 == n * pageSize + r;
    assert n * pageSize - pageSize == (n - 1) * pageSize;
  }
}
