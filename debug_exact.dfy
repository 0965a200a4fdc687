/**
  Per-read exact-hit reporting of the `exact` debug command: both
  orientations of a read are searched exactly in the BWT, every rank of
  each reported interval is converted to a contig coordinate, a positional
  alignment (SAM) record is emitted for each rank that converts, and one
  unmapped record is emitted when none does.

  The exact search, the suffix-array lookup and the coordinate conversion
  are engines whose code is not part of this model; they are the
  function-valued fields of `Index`.  Printing is modelled as producing
  record values, collected in emission order.
*/
module DebugExact {
  import opened Wrappers
  import opened FmapStr
  import opened FmapSeq

  /** Flag bits of section 1.4 of the SAM format specification. */
  const FLAG_UNMAPPED: nat := 0x4
  const FLAG_REVERSE: nat := 0x10
  /** The mapping quality written for every exact hit. */
  const MAPQ_EXACT: nat := 255
  const UINT32_MAX: nat := 0xFFFF_FFFF
  /** The one-character field `*`. */
  const STAR: seq<byte> := [42]

  /** Strand 0 (the read as given) and strand 1 (its reverse complement). */
  datatype Strand = Forward | Reverse

  /** The inclusive BWT rank interval `[sa_begin, sa_end]` of an exact match. */
  datatype Interval = Interval(lo: nat, hi: nat)

  /** A contig coordinate: annotation index `seqid` and position `pos`. */
  datatype Coord = Coord(seqid: nat, pos: nat)

  /** The CIGAR field: `*` or `<n>M`. */
  datatype Cigar = NoCigar | Matched(len: nat)

  /**
    A SAM record; the mate fields RNEXT, PNEXT and TLEN are always `*`, 0
    and 0 and are not represented.
  */
  datatype SamRecord = SamRecord(qname: seq<byte>, flag: nat, rname: seq<byte>, pos: nat,
                                 mapq: nat, cigar: Cigar, bases: seq<byte>, qual: seq<byte>)

  /**
    The reference index as the reporter sees it:
    `matchExact(p)` is `fmap_bwt_match_exact` on pattern `p` (None when it returns 0),
    `saPacPos(i)` is `fmap_sa_pac_pos` of rank `i`,
    `pac2real(p, n)` is `fmap_refseq_pac2real` of position `p` and read length `n`
    (None when it returns a negative value), and `annoNames` are the contig names.
  */
  datatype Index = Index(matchExact: seq<byte> -> Option<Interval>,
                         saPacPos: nat -> nat,
                         pac2real: (nat, nat) -> Option<Coord>,
                         annoNames: seq<seq<byte>>)

  /** The lookup tables `nt_char_to_rc_char` and the character-to-integer table. */
  datatype Tables = Tables(rcChar: Table, charToInt: Table)

  /**
    What the engines promise: a reported interval ends below the largest
    32-bit value (the `uint32_t` rank loop terminates), and a successful
    coordinate names an existing contig.
  */
  ghost predicate IndexValid(idx: Index)
  {
    (forall p :: idx.matchExact(p).Some? ==> idx.matchExact(p).value.hi < UINT32_MAX) &&
    (forall q, n :: idx.pac2real(q, n).Some? ==> idx.pac2real(q, n).value.seqid < |idx.annoNames|)
  }

  predicate IsUnmapped(r: SamRecord)
  {
    r.flag / FLAG_UNMAPPED % 2 == 1
  }

  predicate IsReverse(r: SamRecord)
  {
    r.flag / FLAG_REVERSE % 2 == 1
  }

  function StrandFlag(strand: Strand): nat
  {
    if strand == Reverse then FLAG_REVERSE else 0
  }

  function OptionToSeq<T>(o: Option<T>): seq<T>
  {
    if o.Some? then [o.value] else []
  }

  /**
    The record `fmap_debug_exact_print_sam` prints for the read `v` at packed
    position `pacpos`, if the position converts; a reverse-strand record
    shows the flipped read.
  */
  function PrintSamSpec(idx: Index, tables: Tables, v: ReadValue, pacpos: nat, strand: Strand): Option<SamRecord>
    requires IndexValid(idx)
  {
    match idx.pac2real(pacpos, |v.bases|)
    case None => None
    case Some(c) =>
      var w := if strand == Reverse then Flipped(v, tables.rcChar) else v;
      Some(SamRecord(w.name, StrandFlag(strand), idx.annoNames[c.seqid], c.pos,
                     MAPQ_EXACT, Matched(|v.bases|), w.bases, w.qual))
  }

  /** The record `fmap_debug_exact_print_sam_unmapped` prints for the read `v`. */
  function UnmappedRecord(v: ReadValue): (r: SamRecord)
    ensures IsUnmapped(r) && !IsReverse(r)
    ensures r.rname == STAR && r.pos == 0 && r.mapq == 0 && r.cigar == NoCigar
    ensures r.qname == v.name && r.bases == v.bases && r.qual == v.qual
  {
    SamRecord(v.name, FLAG_UNMAPPED, STAR, 0, 0, NoCigar, v.bases, v.qual)
  }

  /** The ranks `a, a + 1, ..., b - 1`. */
  function Span(a: nat, b: nat): seq<nat>
    decreases b - a
  {
    if b <= a then [] else Span(a, b - 1) + [b - 1]
  }

  /** The ranks the reporter tries for a search result, in the order it tries them. */
  function Ranks(m: Option<Interval>): seq<nat>
  {
    if m.None? then [] else Span(m.value.lo, m.value.hi + 1)
  }

  /** The records printed for `ranks`, one `print_sam` call per rank, in order. */
  function Emit(idx: Index, tables: Tables, v: ReadValue, ranks: seq<nat>, strand: Strand): seq<SamRecord>
    requires IndexValid(idx)
  {
    if ranks == [] then []
    else Emit(idx, tables, v, ranks[..|ranks| - 1], strand)
         + OptionToSeq(PrintSamSpec(idx, tables, v, idx.saPacPos(ranks[|ranks| - 1]), strand))
  }

  /** How many of `ranks` convert to a coordinate for a read of length `len`. */
  function Resolved(idx: Index, len: nat, ranks: seq<nat>): nat
  {
    if ranks == [] then 0
    else Resolved(idx, len, ranks[..|ranks| - 1])
         + (if idx.pac2real(idx.saPacPos(ranks[|ranks| - 1]), len).Some? then 1 else 0)
  }

  /**
    The records of one read: the hits of the forward pattern on strand 0,
    then those of the reverse pattern on strand 1, all printed from
    `display`; one unmapped record when there are none.
  */
  function Records(idx: Index, tables: Tables, fwd: seq<byte>, rev: seq<byte>, display: ReadValue): seq<SamRecord>
    requires IndexValid(idx)
  {
    var hits := Emit(idx, tables, display, Ranks(idx.matchExact(fwd)), Forward)
              + Emit(idx, tables, display, Ranks(idx.matchExact(rev)), Reverse);
    if hits == [] then [UnmappedRecord(display)] else hits
  }

  /**
    The records `fmap_debug_exact_core_worker` prints, as written: both
    searches use integer-form buffers, and every record, the reverse-strand
    ones and the unmapped one included, is printed from the integer-form
    forward buffer `seq`.
  */
  function WorkerRecords(idx: Index, tables: Tables, orig: ReadValue): seq<SamRecord>
    requires IndexValid(idx)
  {
    var fwd := Encoded(orig, tables.charToInt);
    var rev := Encoded(Flipped(orig, tables.rcChar), tables.charToInt);
    Records(idx, tables, fwd.bases, rev.bases, fwd)
  }

  /** The corrected worker: searches as written, records printed from the character form. */
  function CharOutputRecords(idx: Index, tables: Tables, orig: ReadValue): seq<SamRecord>
    requires IndexValid(idx)
  {
    var fwd := Encoded(orig, tables.charToInt);
    var rev := Encoded(Flipped(orig, tables.rcChar), tables.charToInt);
    Records(idx, tables, fwd.bases, rev.bases, orig)
  }

  /**
    What `%s` prints of a record field: the bytes before the first 0.  The
    record values keep all `l` bytes; the printed field stops there.
  */
  function CField(s: seq<byte>): (r: seq<byte>)
    ensures |r| <= |s| && r == s[..|r|]
    ensures forall k :: 0 <= k < |r| ==> r[k] != 0
    ensures |r| < |s| ==> s[|r|] == 0
  {
    if s == [] || s[0] == 0 then [] else [s[0]] + CField(s[1..])
  }

  /** `i++` on the `uint32_t` rank counter. */
  function Uint32Inc(i: nat): (j: nat)
    requires i <= UINT32_MAX
    ensures j <= UINT32_MAX
    ensures i < UINT32_MAX ==> j == i + 1
    ensures i == UINT32_MAX ==> j == 0
  {
    (i + 1) % (UINT32_MAX + 1)
  }

  /** The rank counter after `n` passes of a loop started at `lo`, as a `uint32_t`. */
  function Counter(lo: nat, n: nat): (i: nat)
    requires lo <= UINT32_MAX
    ensures i <= UINT32_MAX
  {
    if n == 0 then lo else Uint32Inc(Counter(lo, n - 1))
  }

  function UnmappedCount(recs: seq<SamRecord>): nat
  {
    if recs == [] then 0
    else UnmappedCount(recs[..|recs| - 1]) + (if IsUnmapped(recs[|recs| - 1]) then 1 else 0)
  }

  // ---------------------------------------------------------------------
  // The reporter.

  /**
    `fmap_debug_exact_print_sam`: emits one record and returns 1 when the
    position converts, emits nothing and returns 0 otherwise.  For strand 1
    the read is flipped for the record and flipped back.
  */
  method PrintSam(idx: Index, tables: Tables, read: Read, pacpos: nat, strand: Strand)
    returns (ret: int, emitted: seq<SamRecord>)
    requires IndexValid(idx) && read.Valid()
    modifies read.bases.s, read.qual.s
    ensures read.Valid()
    ensures emitted == OptionToSeq(PrintSamSpec(idx, tables, old(read.Value()), pacpos, strand))
    ensures ret == |emitted| && (ret == 1 <==> idx.pac2real(pacpos, |old(read.Value()).bases|).Some?)
    ensures read.Value() == if strand == Reverse && ret == 1
                            then Flipped(Flipped(old(read.Value()), tables.rcChar), tables.rcChar)
                            else old(read.Value())
    ensures ComplementUndoesOn(old(read.Value()).bases, old(read.isInt), tables.rcChar) ==>
              read.Value() == old(read.Value())
  {
    ghost var v := read.Value();
    var c := idx.pac2real(pacpos, read.bases.l);
    if c.Some? {
      if strand == Reverse {
        read.Reverse(tables.rcChar);
      }
      var shown := read.Value();
      emitted := [SamRecord(shown.name, StrandFlag(strand), idx.annoNames[c.value.seqid], c.value.pos,
                            MAPQ_EXACT, Matched(read.bases.l), shown.bases, shown.qual)];
      if strand == Reverse {
        read.Reverse(tables.rcChar);
      }
      FlippedShape(v, tables.rcChar);
      if ComplementUndoesOn(v.bases, v.isInt, tables.rcChar) {
        FlipFlip(v, tables.rcChar);
      }
      return 1, emitted;
    }
    return 0, [];
  }

  /**
    One pass of the rank loop: prints rank `i` on `strand` and raises
    `mapped` when a record is printed, extending what ranks `lo` to `i - 1`
    printed.
  */
  method RankStep(idx: Index, tables: Tables, lo: nat, i: nat, display: Read, strand: Strand,
                  mapped: bool, hits: seq<SamRecord>, ghost tried: seq<nat>, ghost shown: ReadValue)
    returns (mapped': bool, hits': seq<SamRecord>, ghost tried': seq<nat>)
    requires IndexValid(idx) && display.Valid() && display.Value() == shown
    requires ComplementUndoesOn(shown.bases, shown.isInt, tables.rcChar)
    requires lo <= i && tried == Span(lo, i) && hits == Emit(idx, tables, shown, tried, strand)
    modifies display.bases.s, display.qual.s
    ensures display.Valid() && display.Value() == shown
    ensures tried' == Span(lo, i + 1)
    ensures hits' == Emit(idx, tables, shown, tried', strand)
    ensures mapped' == (mapped || hits' != hits)
    ensures |hits| <= |hits'|
  {
    var ret, out := PrintSam(idx, tables, display, idx.saPacPos(i), strand);
    mapped' := mapped;
    if ret != 0 {
      mapped' := true;
    }
    EmitStep(idx, tables, shown, lo, i, strand);
    hits', tried' := hits + out, tried + [i];
  }

  /**
    The loop `for (i = lo; i <= hi; i++)` of `fmap_debug_exact_core_worker`:
    every rank from `lo` to `hi` is printed on `strand` in ascending order,
    and `mapped` is raised when a record is printed.  `tried` lists the
    ranks in the order they are looked up.  The counter is unbounded, so the
    loop ends for every `hi`, `UINT32_MAX` included.
  */
  method RankLoop(idx: Index, tables: Tables, lo: nat, hi: nat, display: Read, strand: Strand,
                  mapped: bool, ghost shown: ReadValue)
    returns (mapped': bool, hits: seq<SamRecord>, ghost tried: seq<nat>)
    requires IndexValid(idx) && display.Valid() && display.Value() == shown
    requires ComplementUndoesOn(shown.bases, shown.isInt, tables.rcChar)
    modifies display.bases.s, display.qual.s
    ensures display.Valid() && display.Value() == shown
    ensures tried == Span(lo, hi + 1)
    ensures hits == Emit(idx, tables, shown, tried, strand)
    ensures mapped' == (mapped || hits != [])
  {
    mapped', hits, tried := mapped, [], [];
    var i := lo;
    while i <= hi
      invariant lo <= i <= if lo <= hi then hi + 1 else lo
      invariant display.Valid() && display.Value() == shown
      invariant tried == Span(lo, i)
      invariant hits == Emit(idx, tables, shown, tried, strand)
      invariant mapped' == (mapped || hits != [])
    {
      mapped', hits, tried := RankStep(idx, tables, lo, i, display, strand, mapped', hits, tried, shown);
      i := i + 1;
    }
  }

  /**
    One rank loop of `fmap_debug_exact_core_worker`: when the search found
    an interval, every rank in it is tried in ascending order and its
    position printed on `strand`; `mapped` is raised when a record is
    printed.  `tried` lists the ranks in the order they are looked up.
  */
  method TryRanks(idx: Index, tables: Tables, m: Option<Interval>, display: Read, strand: Strand,
                  mapped: bool, ghost shown: ReadValue)
    returns (mapped': bool, hits: seq<SamRecord>, ghost tried: seq<nat>)
    requires IndexValid(idx) && display.Valid() && display.Value() == shown
    requires ComplementUndoesOn(shown.bases, shown.isInt, tables.rcChar)
    requires m.Some? ==> m.value.hi < UINT32_MAX
    modifies display.bases.s, display.qual.s
    ensures display.Valid() && display.Value() == shown
    ensures hits == Emit(idx, tables, shown, Ranks(m), strand)
    ensures mapped' == (mapped || hits != [])
    ensures tried == Ranks(m)
  {
    mapped', hits, tried := mapped, [], [];
    if m.Some? {
      mapped', hits, tried := RankLoop(idx, tables, m.value.lo, m.value.hi, display, strand, mapped, shown);
    }
  }

  /**
    The two searches, the rank loops and the unmapped fallback of
    `fmap_debug_exact_core_worker`: searches `fwd` and then `rev`, and
    prints from `display`, which ends as it started.
  */
  method ReportHits(idx: Index, tables: Tables, fwd: seq<byte>, rev: seq<byte>, display: Read, ghost shown: ReadValue)
    returns (records: seq<SamRecord>, ghost tried: seq<nat>)
    requires IndexValid(idx) && display.Valid() && display.Value() == shown
    requires ComplementUndoesOn(shown.bases, shown.isInt, tables.rcChar)
    modifies display.bases.s, display.qual.s
    ensures display.Valid() && display.Value() == shown
    ensures records == Records(idx, tables, fwd, rev, shown)
    ensures tried == Ranks(idx.matchExact(fwd)) + Ranks(idx.matchExact(rev))
  {
    var mapped := false;
    var fwdHits, revHits: seq<SamRecord>;
    ghost var fwdTried, revTried;
    mapped, fwdHits, fwdTried := TryRanks(idx, tables, idx.matchExact(fwd), display, Forward, mapped, shown);
    mapped, revHits, revTried := TryRanks(idx, tables, idx.matchExact(rev), display, Reverse, mapped, shown);
    tried := fwdTried + revTried;
    if !mapped {
      records := [UnmappedRecord(display.Value())];
    } else {
      records := fwdHits + revHits;
    }
  }

  /** `seq` of `fmap_debug_exact_core_worker`: an integer-form clone of the read. */
  method ForwardBuffer(tables: Tables, orig: Read) returns (sq: Read)
    requires orig.Valid()
    ensures fresh(sq) && fresh(sq.name) && fresh(sq.bases) && fresh(sq.qual)
    ensures fresh(sq.name.s) && fresh(sq.bases.s) && fresh(sq.qual.s)
    ensures sq.Valid() && sq.Value() == Encoded(orig.Value(), tables.charToInt)
  {
    sq := orig.Clone();
    sq.ToInt(tables.charToInt);
  }

  /** `rseq` of `fmap_debug_exact_core_worker`: an integer-form clone of the read's reverse complement. */
  method ReverseBuffer(tables: Tables, orig: Read) returns (rsq: Read)
    requires orig.Valid()
    ensures fresh(rsq) && fresh(rsq.name) && fresh(rsq.bases) && fresh(rsq.qual)
    ensures fresh(rsq.name.s) && fresh(rsq.bases.s) && fresh(rsq.qual.s)
    ensures rsq.Valid() && rsq.Value() == Encoded(Flipped(orig.Value(), tables.rcChar), tables.charToInt)
  {
    rsq := orig.Clone();
    rsq.Reverse(tables.rcChar);
    rsq.ToInt(tables.charToInt);
  }

  /**
    The buffers of `fmap_debug_exact_core_worker`: `sq` is an integer-form
    clone of the read and `rsq` an integer-form clone of its reverse
    complement, taken in character form.
  */
  method Orientations(tables: Tables, orig: Read) returns (sq: Read, rsq: Read)
    requires orig.Valid()
    ensures fresh(sq) && fresh(sq.name) && fresh(sq.bases) && fresh(sq.qual)
    ensures fresh(sq.name.s) && fresh(sq.bases.s) && fresh(sq.qual.s)
    ensures fresh(rsq) && fresh(rsq.name) && fresh(rsq.bases) && fresh(rsq.qual)
    ensures fresh(rsq.name.s) && fresh(rsq.bases.s) && fresh(rsq.qual.s)
    ensures sq.Valid() && sq.Value() == Encoded(orig.Value(), tables.charToInt)
    ensures rsq.Valid() && rsq.Value() == Encoded(Flipped(orig.Value(), tables.rcChar), tables.charToInt)
    ensures |rsq.Value().bases| == |sq.Value().bases|
  {
    sq := ForwardBuffer(tables, orig);
    rsq := ReverseBuffer(tables, orig);
    FlippedShape(orig.Value(), tables.rcChar);
  }

  /**
    `fmap_debug_exact_core_worker` as written: the forward buffer `seq` and
    the reverse-complement buffer `rseq` are integer-form clones of the read;
    the second search passes `rseq`'s bases with `seq`'s length, and `seq`
    is the buffer printed for both orientations.  The read itself is not
    modified: the method may change nothing it did not allocate.
  */
  method CoreWorker(idx: Index, tables: Tables, orig: Read) returns (records: seq<SamRecord>)
    requires IndexValid(idx) && orig.Valid()
    ensures records == WorkerRecords(idx, tables, orig.Value())
  {
    var sq, rsq := Orientations(tables, orig);
    var fwd := sq.bases.s[..sq.bases.l];
    var rev := rsq.bases.s[..sq.bases.l];
    ghost var sv := sq.Value();
    IntComplementUndoes(sv.bases, tables.rcChar);
    ghost var tried;
    records, tried := ReportHits(idx, tables, fwd, rev, sq, sv);
  }

  /**
    The two search patterns of `fmap_debug_exact_core_worker`: the bases of
    `seq` and the first `seq->seq.l` bases of `rseq`.
  */
  method Patterns(tables: Tables, orig: Read) returns (fwd: seq<byte>, rev: seq<byte>)
    requires orig.Valid()
    ensures fwd == Encoded(orig.Value(), tables.charToInt).bases
    ensures rev == Encoded(Flipped(orig.Value(), tables.rcChar), tables.charToInt).bases
  {
    var sq, rsq := Orientations(tables, orig);
    fwd := sq.bases.s[..sq.bases.l];
    rev := rsq.bases.s[..sq.bases.l];
  }

  /**
    The corrected worker: the same searches, with the records printed from
    a character-form clone of the read.  Restoring that clone after each
    reverse-strand record needs the character complement table to undo
    itself on the read's characters.
  */
  method CoreWorkerCharOutput(idx: Index, tables: Tables, orig: Read) returns (records: seq<SamRecord>)
    requires IndexValid(idx) && orig.Valid()
    requires ComplementUndoesOn(orig.Value().bases, orig.isInt, tables.rcChar)
    ensures records == CharOutputRecords(idx, tables, orig.Value())
  {
    var fwd, rev := Patterns(tables, orig);
    var out := orig.Clone();
    ghost var tried;
    records, tried := ReportHits(idx, tables, fwd, rev, out, orig.Value());
  }

  // ---------------------------------------------------------------------
  // What the reporter promises.

  lemma {:induction false} SpanAt(a: nat, b: nat)
    ensures |Span(a, b)| == if a <= b then b - a else 0
    ensures forall k :: 0 <= k < |Span(a, b)| ==> Span(a, b)[k] == a + k
    decreases b - a
  {
    if a < b {
      SpanAt(a, b - 1);
    }
  }

  /** Trying rank `i` after the ranks `lo` to `i - 1` appends its record, if any. */
  lemma EmitStep(idx: Index, tables: Tables, v: ReadValue, lo: nat, i: nat, strand: Strand)
    requires IndexValid(idx) && lo <= i
    ensures Span(lo, i + 1) == Span(lo, i) + [i]
    ensures Emit(idx, tables, v, Span(lo, i) + [i], strand)
         == Emit(idx, tables, v, Span(lo, i), strand)
            + OptionToSeq(PrintSamSpec(idx, tables, v, idx.saPacPos(i), strand))
  {
    var next := Span(lo, i) + [i];
    assert next[..|next| - 1] == Span(lo, i);
  }

  /**
    A search that found an interval has every rank of `[lo, hi]` tried
    exactly once, in ascending order; a search that found nothing has no
    rank tried.
  */
  lemma RanksTried(m: Option<Interval>)
    ensures m.None? ==> Ranks(m) == []
    ensures m.Some? && m.value.lo <= m.value.hi ==> |Ranks(m)| == m.value.hi - m.value.lo + 1
    ensures m.Some? ==> forall k :: 0 <= k < |Ranks(m)| ==> Ranks(m)[k] == m.value.lo + k
    ensures forall x :: x in Ranks(m) <==> m.Some? && m.value.lo <= x <= m.value.hi
  {
    if m.Some? {
      var lo, hi := m.value.lo, m.value.hi;
      SpanAt(lo, hi + 1);
      forall x | lo <= x <= hi
        ensures x in Ranks(m)
      {
        assert Ranks(m)[x - lo] == x;
      }
    }
  }

  /**
    `print_sam` emits a record exactly when the position converts; the
    record carries flag 0x10 for strand 1 and 0 for strand 0 (so it is
    never marked unmapped), mapping quality 255, the CIGAR `<read length>M`,
    the contig named by the converted annotation index, and the read as
    given for strand 0 or flipped for strand 1.
  */
  lemma PrintSamRecord(idx: Index, tables: Tables, v: ReadValue, pacpos: nat, strand: Strand)
    requires IndexValid(idx)
    ensures PrintSamSpec(idx, tables, v, pacpos, strand).Some? <==> idx.pac2real(pacpos, |v.bases|).Some?
    ensures PrintSamSpec(idx, tables, v, pacpos, strand).Some? ==>
      var r := PrintSamSpec(idx, tables, v, pacpos, strand).value;
      var c := idx.pac2real(pacpos, |v.bases|).value;
      r.flag == StrandFlag(strand) && !IsUnmapped(r) && (IsReverse(r) <==> strand == Reverse) &&
      r.mapq == MAPQ_EXACT && r.cigar == Matched(|v.bases|) &&
      r.rname == idx.annoNames[c.seqid] && r.pos == c.pos && r.qname == v.name &&
      r.bases == (if strand == Reverse then RevComp(v.bases, v.isInt, tables.rcChar) else v.bases) &&
      r.qual == (if strand == Reverse then Reversed(v.qual) else v.qual)
  {
  }

  /** The shape every record printed for a hit of `v` on `strand` has. */
  predicate HitRecord(idx: Index, tables: Tables, v: ReadValue, strand: Strand, r: SamRecord)
  {
    r.flag == StrandFlag(strand) && !IsUnmapped(r) &&
    r.mapq == MAPQ_EXACT && r.cigar == Matched(|v.bases|) && r.rname in idx.annoNames &&
    r.qname == v.name &&
    r.bases == (if strand == Reverse then RevComp(v.bases, v.isInt, tables.rcChar) else v.bases) &&
    r.qual == (if strand == Reverse then Reversed(v.qual) else v.qual)
  }

  /**
    One orientation prints exactly one record per rank whose position
    converts, none of them unmapped, each of the hit shape.
  */
  lemma {:induction false} EmitCounts(idx: Index, tables: Tables, v: ReadValue, ranks: seq<nat>, strand: Strand)
    requires IndexValid(idx)
    ensures |Emit(idx, tables, v, ranks, strand)| == Resolved(idx, |v.bases|, ranks)
    ensures UnmappedCount(Emit(idx, tables, v, ranks, strand)) == 0
    ensures forall k :: 0 <= k < |Emit(idx, tables, v, ranks, strand)| ==>
      HitRecord(idx, tables, v, strand, Emit(idx, tables, v, ranks, strand)[k])
  {
    if ranks != [] {
      var init := ranks[..|ranks| - 1];
      EmitCounts(idx, tables, v, init, strand);
      var last := OptionToSeq(PrintSamSpec(idx, tables, v, idx.saPacPos(ranks[|ranks| - 1]), strand));
      PrintSamRecord(idx, tables, v, idx.saPacPos(ranks[|ranks| - 1]), strand);
      UnmappedCountAppend(Emit(idx, tables, v, init, strand), last);
    }
  }

  lemma {:induction false} UnmappedCountAppend(a: seq<SamRecord>, b: seq<SamRecord>)
    ensures UnmappedCount(a + b) == UnmappedCount(a) + UnmappedCount(b)
    decreases |b|
  {
    if b == [] {
      assert a + b == a;
    } else {
      var b' := b[..|b| - 1];
      assert (a + b)[..|a + b| - 1] == a + b';
      assert (a + b)[|a + b| - 1] == b[|b| - 1];
      UnmappedCountAppend(a, b');
    }
  }

  /** The number of ranks, over both orientations, whose position converts. */
  function ResolvedBoth(idx: Index, fwd: seq<byte>, rev: seq<byte>, len: nat): nat
  {
    Resolved(idx, len, Ranks(idx.matchExact(fwd))) + Resolved(idx, len, Ranks(idx.matchExact(rev)))
  }

  /**
    The count rule of one read: with `n` the number of ranks, over both
    orientations, whose position converts, the read gets `n` records when
    `n > 0` and otherwise exactly one.
  */
  lemma RecordsCount(idx: Index, tables: Tables, fwd: seq<byte>, rev: seq<byte>, display: ReadValue)
    requires IndexValid(idx)
    ensures var n := ResolvedBoth(idx, fwd, rev, |display.bases|);
      |Records(idx, tables, fwd, rev, display)| == if n == 0 then 1 else n
  {
    EmitCounts(idx, tables, display, Ranks(idx.matchExact(fwd)), Forward);
    EmitCounts(idx, tables, display, Ranks(idx.matchExact(rev)), Reverse);
  }

  /**
    A read's records hold one unmapped record (flag 0x4, contig `*`,
    position 0) when no rank converts, and none otherwise.
  */
  lemma RecordsUnmappedCount(idx: Index, tables: Tables, fwd: seq<byte>, rev: seq<byte>, display: ReadValue)
    requires IndexValid(idx)
    ensures var n := ResolvedBoth(idx, fwd, rev, |display.bases|);
      UnmappedCount(Records(idx, tables, fwd, rev, display)) == if n == 0 then 1 else 0
  {
    var f := Emit(idx, tables, display, Ranks(idx.matchExact(fwd)), Forward);
    var r := Emit(idx, tables, display, Ranks(idx.matchExact(rev)), Reverse);
    EmitCounts(idx, tables, display, Ranks(idx.matchExact(fwd)), Forward);
    EmitCounts(idx, tables, display, Ranks(idx.matchExact(rev)), Reverse);
    UnmappedCountAppend(f, r);
    assert UnmappedCount([UnmappedRecord(display)]) == 1 by {
      assert [UnmappedRecord(display)][..0] == [];
    }
  }

  /** A read's records are the unmapped record alone iff no rank converts. */
  lemma RecordsUnmappedIff(idx: Index, tables: Tables, fwd: seq<byte>, rev: seq<byte>, display: ReadValue)
    requires IndexValid(idx)
    ensures ResolvedBoth(idx, fwd, rev, |display.bases|) == 0
        <==> Records(idx, tables, fwd, rev, display) == [UnmappedRecord(display)]
  {
    var f := Emit(idx, tables, display, Ranks(idx.matchExact(fwd)), Forward);
    var r := Emit(idx, tables, display, Ranks(idx.matchExact(rev)), Reverse);
    EmitCounts(idx, tables, display, Ranks(idx.matchExact(fwd)), Forward);
    EmitCounts(idx, tables, display, Ranks(idx.matchExact(rev)), Reverse);
    if f + r != [] {
      assert (f + r)[0] in f + r;
      assert !IsUnmapped((f + r)[0]);
    }
  }

  /**
    A record shows `display` when it carries its name and shows its bases
    and qualities as they are, or flipped when the record is on strand 1.
  */
  predicate ShowsRead(tables: Tables, display: ReadValue, r: SamRecord)
  {
    r.qname == display.name &&
    r.bases == (if IsReverse(r) then RevComp(display.bases, display.isInt, tables.rcChar) else display.bases) &&
    r.qual == (if IsReverse(r) then Reversed(display.qual) else display.qual)
  }

  lemma HitShowsRead(idx: Index, tables: Tables, display: ReadValue, strand: Strand, r: SamRecord)
    requires HitRecord(idx, tables, display, strand, r)
    ensures ShowsRead(tables, display, r) && (IsReverse(r) <==> strand == Reverse)
  {
  }

  /** Every record of `recs` shows `display`. */
  predicate AllShowRead(tables: Tables, display: ReadValue, recs: seq<SamRecord>)
  {
    forall k :: 0 <= k < |recs| ==> ShowsRead(tables, display, recs[k])
  }

  lemma AllShowReadAppend(tables: Tables, display: ReadValue, a: seq<SamRecord>, b: seq<SamRecord>)
    requires AllShowRead(tables, display, a) && AllShowRead(tables, display, b)
    ensures AllShowRead(tables, display, a + b)
  {
    forall k | 0 <= k < |a + b|
      ensures ShowsRead(tables, display, (a + b)[k])
    {
      if k < |a| {
        assert (a + b)[k] == a[k];
      } else {
        assert (a + b)[k] == b[k - |a|];
      }
    }
  }

  /** The hits of one orientation show `display`, flipped exactly on strand 1. */
  lemma EmitShowsRead(idx: Index, tables: Tables, display: ReadValue, ranks: seq<nat>, strand: Strand)
    requires IndexValid(idx)
    ensures AllShowRead(tables, display, Emit(idx, tables, display, ranks, strand))
  {
    var e := Emit(idx, tables, display, ranks, strand);
    EmitCounts(idx, tables, display, ranks, strand);
    forall k | 0 <= k < |e|
      ensures ShowsRead(tables, display, e[k])
    {
      HitShowsRead(idx, tables, display, strand, e[k]);
    }
  }

  /**
    Every record of a read shows `display`: as it is for the forward hits
    and the unmapped record, flipped for the reverse-strand hits.
  */
  lemma RecordsShowDisplay(idx: Index, tables: Tables, fwd: seq<byte>, rev: seq<byte>, display: ReadValue)
    requires IndexValid(idx)
    ensures forall k :: 0 <= k < |Records(idx, tables, fwd, rev, display)| ==>
      ShowsRead(tables, display, Records(idx, tables, fwd, rev, display)[k])
  {
    var f := Emit(idx, tables, display, Ranks(idx.matchExact(fwd)), Forward);
    var r := Emit(idx, tables, display, Ranks(idx.matchExact(rev)), Reverse);
    EmitShowsRead(idx, tables, display, Ranks(idx.matchExact(fwd)), Forward);
    EmitShowsRead(idx, tables, display, Ranks(idx.matchExact(rev)), Reverse);
    AllShowReadAppend(tables, display, f, r);
    if f + r == [] {
      assert Records(idx, tables, fwd, rev, display) == [UnmappedRecord(display)];
      assert ShowsRead(tables, display, UnmappedRecord(display));
    } else {
      assert Records(idx, tables, fwd, rev, display) == f + r;
    }
  }

  /**
    The corrected worker prints the character form: forward hits and the
    unmapped record show the read as given, reverse-strand hits its
    character-form reverse complement with reversed qualities.
  */
  lemma CharOutputShowsCharacters(idx: Index, tables: Tables, orig: ReadValue)
    requires IndexValid(idx)
    ensures forall k :: 0 <= k < |CharOutputRecords(idx, tables, orig)| ==>
      ShowsRead(tables, orig, CharOutputRecords(idx, tables, orig)[k])
  {
    var fwd := Encoded(orig, tables.charToInt);
    var rev := Encoded(Flipped(orig, tables.rcChar), tables.charToInt);
    RecordsShowDisplay(idx, tables, fwd.bases, rev.bases, orig);
  }

  /**
    As written, every record shows the integer-form buffer: forward hits and
    the unmapped record its codes, reverse-strand hits their integer
    reverse complement.
  */
  lemma WorkerShowsIntegerCodes(idx: Index, tables: Tables, orig: ReadValue)
    requires IndexValid(idx)
    ensures forall k :: 0 <= k < |WorkerRecords(idx, tables, orig)| ==>
      ShowsRead(tables, Encoded(orig, tables.charToInt), WorkerRecords(idx, tables, orig)[k])
  {
    var fwd := Encoded(orig, tables.charToInt);
    var rev := Encoded(Flipped(orig, tables.rcChar), tables.charToInt);
    RecordsShowDisplay(idx, tables, fwd.bases, rev.bases, fwd);
  }

  /**
    A read `A` with quality `I` that does not occur: its one, unmapped,
    record holds the code 0 rather than the character `A`, so the SEQ field
    `%s` prints is empty while QUAL is printed in full.
  */
  lemma UnmappedRecordShowsIntegerCodes()
    ensures var idx := Index(p => None, i => i, (q, n) => None, []);
            var rc: Table := seq(256, i => if 0 <= i < 256 then i else 0);
            var toInt: Table := seq(256, i => if i == 65 then 0 else 4);
            var orig := ReadValue([114], [65], [73], false);
            WorkerRecords(idx, Tables(rc, toInt), orig) == [SamRecord([114], FLAG_UNMAPPED, STAR, 0, 0, NoCigar, [0], [73])] &&
            WorkerRecords(idx, Tables(rc, toInt), orig)[0].bases != orig.bases &&
            CField(WorkerRecords(idx, Tables(rc, toInt), orig)[0].bases) == [] &&
            CField(WorkerRecords(idx, Tables(rc, toInt), orig)[0].qual) == [73]
  {
    var idx := Index(p => None, i => i, (q, n) => None, []);
    var rc: Table := seq(256, i => if 0 <= i < 256 then i else 0);
    var toInt: Table := seq(256, i => if i == 65 then 0 else 4);
    var orig := ReadValue([114], [65], [73], false);
    var e := Encoded(orig, toInt);
    assert e.bases == [0];
    RecordsUnmappedIff(idx, Tables(rc, toInt), e.bases, Encoded(Flipped(orig, rc), toInt).bases, e);
  }

  /**
    The second search uses `rseq`, and its hits are printed from `seq`,
    which `print_sam` flips for strand 1.  When the integer encoding maps
    the complement of each of the read's characters to the complement of
    its code, that flipped buffer is exactly `rseq`: each reverse-strand
    record shows the buffer that was searched.  Passing `rseq` itself would
    show it flipped back, the forward codes, under flag 0x10.
  */
  lemma {:induction false} FlippedSeqIsRseq(tables: Tables, orig: ReadValue)
    requires !orig.isInt
    requires forall k :: 0 <= k < |orig.bases| ==>
      tables.charToInt[tables.rcChar[orig.bases[k]]] == IntComplement(tables.charToInt[orig.bases[k]])
    ensures Flipped(Encoded(orig, tables.charToInt), tables.rcChar)
         == Encoded(Flipped(orig, tables.rcChar), tables.charToInt)
  {
    var e := Encoded(orig, tables.charToInt).bases;
    var a := RevComp(e, true, tables.rcChar);
    var rcs := RevComp(orig.bases, false, tables.rcChar);
    var b := Translate(rcs, tables.charToInt);
    RevCompLength(e, true, tables.rcChar);
    RevCompLength(orig.bases, false, tables.rcChar);
    forall k | 0 <= k < |a|
      ensures a[k] == b[k]
    {
      RevCompAt(e, true, tables.rcChar, k);
      RevCompAt(orig.bases, false, tables.rcChar, k);
    }
  }

  /**
    With `sa_end == 0xFFFFFFFF` the guard `i <= sa_end` holds after every
    pass, since the counter wraps from `0xFFFFFFFF` to 0: the loop never ends.
  */
  lemma {:induction false} MaxEndNeverExits(lo: nat, n: nat)
    requires lo <= UINT32_MAX
    ensures Counter(lo, n) <= UINT32_MAX
    ensures Counter(UINT32_MAX, 1) == 0
    ensures n <= UINT32_MAX - lo ==> Counter(lo, n) == lo + n
  {
    if n > 0 {
      MaxEndNeverExits(lo, n - 1);
    }
  }
}
