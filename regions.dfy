/** Region criteria of the read filter: a single `chrom:start-end` region
    (ExcludeRegion, IncludeRegion) and a BED file of regions kept in a
    `(chrom, pos // 100000)` bin index (ExcludeBED, IncludeBED). */
module Regions {
  import opened Wrappers
  import opened PyText
  import opened Reads

  // ---------------------------------------------------------------------
  // A single region

  /** An ExcludeRegion: the text it was built from, its chromosome, and the
      0-based start and end it compares read positions against. */
  datatype RegionSpec = RegionSpec(region: string, chrom: string, start: int, end: int)

  /** `[int(x) for x in xs]`: None where some element is not an int. */
  function ParseInts(xs: seq<string>): (r: Option<seq<int>>)
    ensures r.Some? ==> |r.value| == |xs|
  {
    if xs == [] then Some([])
    else
      match ParseInts(xs[..|xs| - 1])
      case None => None
      case Some(vs) =>
        match ParseInt(xs[|xs| - 1])
        case None => None
        case Some(v) => Some(vs + [v])
  }

  /** The comprehension succeeds iff every element is an int, and then
      holds their values in order. */
  lemma {:induction false} ParseIntsSpec(xs: seq<string>)
    ensures ParseInts(xs).Some? <==> forall i :: 0 <= i < |xs| ==> ParseInt(xs[i]).Some?
    ensures ParseInts(xs).Some? ==> forall i :: 0 <= i < |xs| ==> ParseInt(xs[i]) == Some(ParseInts(xs).value[i])
  {
    if xs != [] {
      var init := xs[..|xs| - 1];
      ParseIntsSpec(init);
      assert forall i :: 0 <= i < |init| ==> init[i] == xs[i];
    }
  }

  /** ExcludeRegion.__init__: split at `:`, convert every `-`-separated piece
      of the second part to int, start is the first piece minus one and end
      the second piece. Errors are the exceptions Python raises. */
  function ParseRegion(region: string): Result<RegionSpec, PyError> {
    var spl := Split(region, ':');
    if |spl| < 2 then Err(IndexError)
    else
      match ParseInts(Split(spl[1], '-'))
      case None => Err(ValueError)
      case Some(se) =>
        if |se| < 2 then Err(IndexError)
        else Ok(RegionSpec(region, spl[0], se[0] - 1, se[1]))
  }

  /** The decimal text of a natural number holds neither `:` nor `-`. */
  lemma NatTextSeparators(n: nat)
    ensures ':' !in IntToString(n) && '-' !in IntToString(n)
  {
    var ds := IntToString(n);
    DigitsOfChars(n, 10);
    assert forall i :: 0 <= i < |ds| ==> '0' <= ds[i] <= '9' || 'a' <= ds[i] <= 'f';
  }

  /** `s-e` splits into the two numbers. */
  lemma SplitSpanText(ss: string, es: string)
    requires '-' !in ss && '-' !in es
    ensures Split(ss + "-" + es, '-') == [ss, es]
  {
    assert ss + "-" + es == ss + ['-'] + es;
    SplitAfterPiece(ss, '-', es);
    SplitNoSep(es, '-');
  }

  /** `chrom:s-e` splits into the chromosome and the two numbers. */
  lemma SplitRegionText(chrom: string, ss: string, es: string)
    requires ':' !in chrom && ':' !in ss && ':' !in es && '-' !in ss && '-' !in es
    ensures Split(chrom + ":" + ss + "-" + es, ':') == [chrom, ss + "-" + es]
    ensures Split(ss + "-" + es, '-') == [ss, es]
  {
    var span := ss + "-" + es;
    assert span == ss + ['-'] + es;
    assert ':' !in span;
    assert chrom + ":" + ss + "-" + es == chrom + [':'] + span;
    SplitAfterPiece(chrom, ':', span);
    SplitNoSep(span, ':');
    SplitSpanText(ss, es);
  }

  /** The text `chrom:s-e` is read back as the 0-based region `[s - 1, e]`. */
  lemma ParseRegionRoundTrip(chrom: string, s: nat, e: nat)
    requires ':' !in chrom
    ensures var text := chrom + ":" + IntToString(s) + "-" + IntToString(e);
            ParseRegion(text) == Ok(RegionSpec(text, chrom, s - 1, e))
  {
    var ss, es := IntToString(s), IntToString(e);
    var text := chrom + ":" + ss + "-" + es;
    NatTextSeparators(s);
    NatTextSeparators(e);
    SplitRegionText(chrom, ss, es);
    IntRoundTrip(s);
    IntRoundTrip(e);
    ParseRegionOf(text, chrom, ss + "-" + es, ss, es, s, e);
  }

  lemma ParseRegionOf(region: string, chrom: string, span: string, ss: string, es: string, s: int, e: int)
    requires Split(region, ':') == [chrom, span] && Split(span, '-') == [ss, es]
    requires ParseInt(ss) == Some(s) && ParseInt(es) == Some(e)
    ensures ParseRegion(region) == Ok(RegionSpec(region, chrom, s - 1, e))
  {
    ParseIntsPair(ss, es, s, e);
  }

  lemma ParseIntsPair(a: string, b: string, x: int, y: int)
    requires ParseInt(a) == Some(x) && ParseInt(b) == Some(y)
    ensures ParseInts([a, b]) == Some([x, y])
  {
    assert [a][..0] == [];
    assert ParseInts([]) == Some([]);
    assert [] + [x] == [x];
    assert ParseInts([a]) == Some([x]);
    assert [a, b][..1] == [a];
    assert [x] + [y] == [x, y];
  }

  /** ExcludeRegion.filter, with `refName` the name of the read's reference. */
  predicate ExcludeRegionPass(spec: RegionSpec, refName: string, r: Read) {
    if !IsUnmapped(r) && refName == spec.chrom then
      !(spec.start <= r.pos <= spec.end) && !(spec.start <= r.aend <= spec.end)
    else true
  }

  /** For an ordered read and region on the same reference, the two endpoint
      tests reject exactly the reads that overlap the region without
      strictly containing it: a read that starts before the region and ends
      after it passes. */
  lemma ExcludeRegionOverlap(spec: RegionSpec, refName: string, r: Read)
    requires !IsUnmapped(r) && refName == spec.chrom
    requires r.pos <= r.aend && spec.start <= spec.end
    ensures !ExcludeRegionPass(spec, refName, r) <==>
              r.pos <= spec.end && spec.start <= r.aend && !(r.pos < spec.start && spec.end < r.aend)
  {
  }

  /** IncludeRegion.filter on the class-level list `_excludes` and the
      class-level `_last`: the object seen last passes at once; any other
      read becomes `_last` and passes iff some listed region excludes it.
      Reads are identified by their position in the stream, since the
      stream yields a new object for every record. */
  function IncludeStep(excludes: seq<RegionSpec>, last: Option<nat>, refName: string, serial: nat, r: Read): (bool, Option<nat>) {
    if last == Some(serial) then (true, last)
    else (exists k :: 0 <= k < |excludes| && !ExcludeRegionPass(excludes[k], refName, r), Some(serial))
  }

  /** With a single listed region, IncludeRegion is the negation of
      ExcludeRegion for every read not seen just before. */
  lemma IncludeSingleRegion(spec: RegionSpec, last: Option<nat>, refName: string, serial: nat, r: Read)
    requires last != Some(serial)
    ensures IncludeStep([spec], last, refName, serial, r) == (!ExcludeRegionPass(spec, refName, r), Some(serial))
  {
    if !ExcludeRegionPass(spec, refName, r) {
      assert !ExcludeRegionPass([spec][0], refName, r);
    }
  }

  /** The class-level state that every IncludeRegion instance shares. */
  class IncludeRegionRegistry {
    var excludes: seq<RegionSpec>
    var last: Option<nat>

    /** The class body: `_excludes = []`, `_last = None`. */
    constructor ()
      ensures excludes == [] && last == None
    {
      excludes := [];
      last := None;
    }

    /** IncludeRegion.__init__: build an ExcludeRegion and append it to the
        shared list; a malformed region raises before anything is appended. */
    method Register(region: string) returns (r: Result<RegionSpec, PyError>)
      modifies this`excludes
      ensures r == ParseRegion(region)
      ensures r.Ok? ==> excludes == old(excludes) + [r.value]
      ensures r.Err? ==> excludes == old(excludes)
    {
      r := ParseRegion(region);
      if r.Ok? {
        excludes := excludes + [r.value];
      }
    }

    /** IncludeRegion.filter. */
    method Filter(refName: string, serial: nat, read: Read) returns (pass: bool)
      modifies this`last
      ensures (pass, last) == IncludeStep(excludes, old(last), refName, serial, read)
    {
      if last == Some(serial) {
        return true;
      }
      last := Some(serial);
      var k := 0;
      while k < |excludes|
        invariant 0 <= k <= |excludes|
        invariant forall j :: 0 <= j < k ==> ExcludeRegionPass(excludes[j], refName, read)
      {
        if !ExcludeRegionPass(excludes[k], refName, read) {
          return true;
        }
        k := k + 1;
      }
      return false;
    }
  }

  // ---------------------------------------------------------------------
  // The BED bin index

  const BIN_SIZE: int := 100000

  /** One BED line: chromosome, start, end (as written) and strand column. */
  datatype BedRegion = BedRegion(chrom: string, start: int, end: int, strand: string)

  /** What a bucket holds: the `(start, end, strand)` triple. */
  datatype BedEntry = BedEntry(start: int, end: int, strand: string)

  type BinKey = (string, int)

  type BedIndex = map<BinKey, seq<BedEntry>>

  function Entry(r: BedRegion): BedEntry {
    BedEntry(r.start, r.end, r.strand)
  }

  /** One line of ExcludeBED.__init__'s loop: Ok(None) for a skipped line
      (empty, or starting with `#`); otherwise the tab-separated columns of
      the stripped line, with the exception Python raises for a missing
      column or a non-integer coordinate. */
  function ParseBedLine(line: string): Result<Option<BedRegion>, PyError> {
    if line == [] || line[0] == '#' then Ok(None)
    else ParseBedColumns(Split(Strip(line), '\t'))
  }

  /** The columns of a BED line, read in the order the source reads them. */
  function ParseBedColumns(cols: seq<string>): Result<Option<BedRegion>, PyError> {
      if |cols| < 2 then Err(IndexError)
      else
        match ParseInt(cols[1])
        case None => Err(ValueError)
        case Some(start) =>
          if |cols| < 3 then Err(IndexError)
          else
            match ParseInt(cols[2])
            case None => Err(ValueError)
            case Some(end) =>
              if |cols| < 6 then Err(IndexError)
              else Ok(Some(BedRegion(cols[0], start, end, cols[5])))
  }

  /** The inner `for bin in xrange(lo, hi + 1)` loop: every bin from `lo`
      to `hi` of `chrom` gets a bucket, existing buckets are left alone. */
  function AddBins(m: BedIndex, chrom: string, lo: int, hi: int): BedIndex
    decreases if hi < lo then 0 else hi - lo + 1
  {
    if hi < lo then m
    else
      var m1 := AddBins(m, chrom, lo, hi - 1);
      if (chrom, hi) in m1 then m1 else m1[(chrom, hi) := []]
  }

  /** The bin loop adds an empty bucket for exactly the bins from `lo` to
      `hi` that had none, and leaves every existing bucket as it was. */
  lemma {:induction false} AddBinsSpec(m: BedIndex, chrom: string, lo: int, hi: int)
    ensures var m' := AddBins(m, chrom, lo, hi);
            (forall key :: key in m' <==> key in m || (key.0 == chrom && lo <= key.1 <= hi)) &&
            (forall key :: key in m ==> m'[key] == m[key]) &&
            (forall key :: key in m' && key !in m ==> m'[key] == [])
    decreases if hi < lo then 0 else hi - lo + 1
  {
    if lo <= hi {
      AddBinsSpec(m, chrom, lo, hi - 1);
    }
  }

  /** The state of ExcludeBED.__init__: the dict, and the loop variable
      `bin`, which outlives its loop (None while it has never been bound). */
  datatype Builder = Builder(regions: BedIndex, bin: Option<int>)

  /** One region: create the buckets of its bins, then append the triple to
      the bucket of `(chrom, bin)`. After a non-empty bin loop `bin` is the
      end bin; after an empty one (end bin below start bin) it is whatever an
      earlier line left, which raises UnboundLocalError if there was none and
      KeyError if that bucket does not exist for this chromosome. */
  function Place(b: Builder, r: BedRegion): Result<Builder, PyError> {
    var lo := r.start / BIN_SIZE;
    var hi := r.end / BIN_SIZE;
    var regions := AddBins(b.regions, r.chrom, lo, hi);
    var bin := if lo <= hi then Some(hi) else b.bin;
    match bin
    case None => Err(UnboundLocalError)
    case Some(k) =>
      if (r.chrom, k) in regions then
        Ok(Builder(regions[(r.chrom, k) := regions[(r.chrom, k)] + [Entry(r)]], bin))
      else Err(KeyError)
  }

  /** One iteration of the line loop: an earlier error or this line's error
      stops the build, a skipped line changes nothing, a region is placed. */
  function Step(acc: Result<Builder, PyError>, parsed: Result<Option<BedRegion>, PyError>): Result<Builder, PyError> {
    match acc
    case Err(e) => Err(e)
    case Ok(b) =>
      match parsed
      case Err(e) => Err(e)
      case Ok(None) => Ok(b)
      case Ok(Some(r)) => Place(b, r)
  }

  /** ExcludeBED.__init__ over the file's lines, stopping at the first error. */
  function BuildFrom(lines: seq<string>): Result<Builder, PyError> {
    if lines == [] then Ok(Builder(map[], None))
    else Step(BuildFrom(lines[..|lines| - 1]), ParseBedLine(lines[|lines| - 1]))
  }

  lemma BuildFromPrefix(lines: seq<string>, i: nat)
    requires i < |lines|
    ensures BuildFrom(lines[..i + 1]) == Step(BuildFrom(lines[..i]), ParseBedLine(lines[i]))
  {
    assert lines[..i + 1][..i] == lines[..i];
  }

  /** Once a prefix of the file fails, the whole file fails with that error. */
  lemma {:induction false} BuildErrorPersists(lines: seq<string>, i: nat)
    requires i <= |lines| && BuildFrom(lines[..i]).Err?
    ensures BuildFrom(lines) == BuildFrom(lines[..i])
    decreases |lines| - i
  {
    if i < |lines| {
      BuildFromPrefix(lines, i);
      BuildErrorPersists(lines, i + 1);
    } else {
      assert lines[..i] == lines;
    }
  }

  /** The body of ExcludeBED.__init__'s loop for one region: the bin loop,
      then the append to the bucket `bin` names. */
  method PlaceRegion(regions0: BedIndex, bin0: Option<int>, region: BedRegion) returns (res: Result<Builder, PyError>)
    ensures res == Place(Builder(regions0, bin0), region)
  {
    var regions := regions0;
    var bin := bin0;
    var startBin := region.start / BIN_SIZE;
    var endBin := region.end / BIN_SIZE;
    var b := startBin;
    while b <= endBin
      invariant startBin <= b <= if startBin <= endBin then endBin + 1 else startBin
      invariant regions == AddBins(regions0, region.chrom, startBin, b - 1)
      invariant bin == if b > startBin then Some(b - 1) else bin0
    {
      if (region.chrom, b) !in regions {
        regions := regions[(region.chrom, b) := []];
      }
      bin := Some(b);
      b := b + 1;
    }
    if startBin <= endBin {
      assert b - 1 == endBin;
    } else {
      assert regions == regions0 == AddBins(regions0, region.chrom, startBin, endBin);
    }
    if bin.None? {
      return Err(UnboundLocalError);
    }
    var key := (region.chrom, bin.value);
    if key !in regions {
      return Err(KeyError);
    }
    return Ok(Builder(regions[key := regions[key] + [Entry(region)]], bin));
  }

  /** ExcludeBED.__init__, as the loop the source runs. */
  method BuildBedIndex(lines: seq<string>) returns (r: Result<BedIndex, PyError>)
    ensures BuildFrom(lines).Ok? ==> r == Ok(BuildFrom(lines).value.regions)
    ensures BuildFrom(lines).Err? ==> r == Err(BuildFrom(lines).error)
  {
    var regions: BedIndex := map[];
    var bin: Option<int> := None;
    var i := 0;
    while i < |lines|
      invariant 0 <= i <= |lines|
      invariant BuildFrom(lines[..i]) == Ok(Builder(regions, bin))
    {
      var parsed := ParseBedLine(lines[i]);
      BuildFromPrefix(lines, i);
      if parsed.Err? {
        BuildErrorPersists(lines, i + 1);
        return Err(parsed.error);
      }
      if parsed.value.Some? {
        var placed := PlaceRegion(regions, bin, parsed.value.value);
        if placed.Err? {
          BuildErrorPersists(lines, i + 1);
          return Err(placed.error);
        }
        regions, bin := placed.value.regions, placed.value.bin;
      }
      i := i + 1;
    }
    assert lines[..i] == lines;
    return Ok(regions);
  }

  /** `strand == '+' and read.is_reverse` or `strand == '-' and not read.is_reverse`. */
  predicate StrandSkips(strand: string, reverse: bool) {
    (strand == "+" && reverse) || (strand == "-" && !reverse)
  }

  predicate Covers(start: int, end: int, x: int) {
    start <= x <= end
  }

  /** An entry that applies to the read's strand and contains the read's
      start or end. */
  predicate EntryHit(e: BedEntry, r: Read) {
    !StrandSkips(e.strand, IsReverse(r)) && (Covers(e.start, e.end, r.pos) || Covers(e.start, e.end, r.aend))
  }

  predicate BucketHit(entries: seq<BedEntry>, r: Read) {
    exists i :: 0 <= i < |entries| && EntryHit(entries[i], r)
  }

  /** ExcludeBED.filter: unmapped reads pass; a mapped read is checked only
      against the bucket of its start bin, and passes if there is none. */
  predicate ExcludeBedPass(index: BedIndex, refName: string, r: Read) {
    if IsUnmapped(r) then true
    else
      var key := (refName, r.pos / BIN_SIZE);
      key !in index || !BucketHit(index[key], r)
  }

  /** ExcludeBED.filter, as the loop the source runs. */
  method ExcludeBedFilter(index: BedIndex, refName: string, r: Read) returns (pass: bool)
    ensures pass == ExcludeBedPass(index, refName, r)
  {
    if !IsUnmapped(r) {
      var bin := r.pos / BIN_SIZE;
      if (refName, bin) !in index {
        return true;
      }
      var entries := index[(refName, bin)];
      var i := 0;
      while i < |entries|
        invariant 0 <= i <= |entries|
        invariant forall j :: 0 <= j < i ==> !EntryHit(entries[j], r)
      {
        var e := entries[i];
        if e.strand == "+" && IsReverse(r) {
          i := i + 1;
          continue;
        }
        if e.strand == "-" && !IsReverse(r) {
          i := i + 1;
          continue;
        }
        if e.start <= r.pos <= e.end {
          return false;
        }
        if e.start <= r.aend <= e.end {
          return false;
        }
        i := i + 1;
      }
    }
    return true;
  }

  // ---------------------------------------------------------------------
  // What the index built from a BED file answers

  /** The regions of the lines that parse, in file order. */
  function ParsedRegions(lines: seq<string>): seq<BedRegion> {
    if lines == [] then []
    else
      var rs := ParsedRegions(lines[..|lines| - 1]);
      match ParseBedLine(lines[|lines| - 1])
      case Ok(Some(r)) => rs + [r]
      case _ => rs
  }

  predicate Ordered(rs: seq<BedRegion>) {
    forall i :: 0 <= i < |rs| ==> rs[i].start <= rs[i].end
  }

  /** Region `r` spans bin `key`. */
  predicate Spans(r: BedRegion, key: BinKey) {
    r.chrom == key.0 && r.start / BIN_SIZE <= key.1 <= r.end / BIN_SIZE
  }

  predicate SomeSpans(rs: seq<BedRegion>, key: BinKey) {
    exists i :: 0 <= i < |rs| && Spans(rs[i], key)
  }

  /** The triples of the regions whose end falls in bin `key`, in file order. */
  function EndBinEntries(rs: seq<BedRegion>, key: BinKey): seq<BedEntry> {
    if rs == [] then []
    else
      var r := rs[|rs| - 1];
      EndBinEntries(rs[..|rs| - 1], key) + (if r.chrom == key.0 && r.end / BIN_SIZE == key.1 then [Entry(r)] else [])
  }

  lemma {:induction false} EndBinEntriesSpan(rs: seq<BedRegion>, key: BinKey)
    requires Ordered(rs) && EndBinEntries(rs, key) != []
    ensures SomeSpans(rs, key)
  {
    var r := rs[|rs| - 1];
    if r.chrom == key.0 && r.end / BIN_SIZE == key.1 {
      assert r.start / BIN_SIZE <= r.end / BIN_SIZE by {
        DivMonotone(r.start, r.end);
      }
      assert Spans(rs[|rs| - 1], key);
    } else {
      EndBinEntriesSpan(rs[..|rs| - 1], key);
      var i :| 0 <= i < |rs| - 1 && Spans(rs[..|rs| - 1][i], key);
      assert Spans(rs[i], key);
    }
  }

  lemma DivMonotone(a: int, b: int)
    requires a <= b
    ensures a / BIN_SIZE <= b / BIN_SIZE
  {
  }

  /** The index holds a bucket for every bin some region of `rs` spans and
      for no other, and the bucket of a bin holds exactly the regions whose
      END falls in it, in order. */
  ghost predicate Indexes(m: BedIndex, rs: seq<BedRegion>) {
    (forall key :: key in m <==> SomeSpans(rs, key)) &&
    (forall key :: key in m ==> m[key] == EndBinEntries(rs, key))
  }

  /** Placing one more region with start <= end keeps Indexes. */
  lemma PlaceKeepsIndexes(b0: Builder, rs0: seq<BedRegion>, r: BedRegion, b: Builder)
    requires Indexes(b0.regions, rs0) && Ordered(rs0) && r.start <= r.end
    requires Place(b0, r) == Ok(b)
    ensures Indexes(b.regions, rs0 + [r])
  {
    DivMonotone(r.start, r.end);
    var lo, hi := r.start / BIN_SIZE, r.end / BIN_SIZE;
    var added := AddBins(b0.regions, r.chrom, lo, hi);
    AddBinsSpec(b0.regions, r.chrom, lo, hi);
    assert b.regions == added[(r.chrom, hi) := added[(r.chrom, hi)] + [Entry(r)]];
    PlaceKeys(b0.regions, rs0, r, b.regions);
    PlaceBuckets(b0.regions, rs0, r, b.regions);
  }

  lemma PlaceKeys(m0: BedIndex, rs0: seq<BedRegion>, r: BedRegion, m: BedIndex)
    requires forall key :: key in m0 <==> SomeSpans(rs0, key)
    requires forall key :: key in m <==> key in m0 || Spans(r, key)
    ensures forall key :: key in m <==> SomeSpans(rs0 + [r], key)
  {
    var rs := rs0 + [r];
    forall key
      ensures key in m <==> SomeSpans(rs, key)
    {
      if SomeSpans(rs, key) && !Spans(r, key) {
        var i :| 0 <= i < |rs| && Spans(rs[i], key);
        assert i < |rs0| && Spans(rs0[i], key);
      }
      if SomeSpans(rs0, key) {
        var i :| 0 <= i < |rs0| && Spans(rs0[i], key);
        assert Spans(rs[i], key);
      }
      if Spans(r, key) {
        assert Spans(rs[|rs| - 1], key);
      }
    }
  }

  lemma PlaceBuckets(m0: BedIndex, rs0: seq<BedRegion>, r: BedRegion, m: BedIndex)
    requires Ordered(rs0) && r.start / BIN_SIZE <= r.end / BIN_SIZE
    requires forall key :: key in m0 ==> m0[key] == EndBinEntries(rs0, key)
    requires forall key :: SomeSpans(rs0, key) ==> key in m0
    requires forall key :: key in m <==> key in m0 || Spans(r, key)
    requires forall key :: key in m && key != (r.chrom, r.end / BIN_SIZE) ==> m[key] == if key in m0 then m0[key] else []
    requires var k := (r.chrom, r.end / BIN_SIZE);
             k in m && m[k] == (if k in m0 then m0[k] else []) + [Entry(r)]
    ensures forall key :: key in m ==> m[key] == EndBinEntries(rs0 + [r], key)
  {
    var rs := rs0 + [r];
    assert rs[..|rs| - 1] == rs0 && rs[|rs| - 1] == r;
    forall key | key in m
      ensures m[key] == EndBinEntries(rs, key)
    {
      assert EndBinEntries(rs, key) ==
        EndBinEntries(rs0, key) + (if r.chrom == key.0 && r.end / BIN_SIZE == key.1 then [Entry(r)] else []);
      if key !in m0 && EndBinEntries(rs0, key) != [] {
        EndBinEntriesSpan(rs0, key);
      }
    }
  }

  /** What a successful build of a file whose regions all have start <= end
      holds: a bucket for every bin some region spans, and in the bucket of a
      bin exactly the regions whose END falls in it, in file order. */
  lemma {:induction false} BuildContents(lines: seq<string>, b: Builder)
    requires BuildFrom(lines) == Ok(b) && Ordered(ParsedRegions(lines))
    ensures Indexes(b.regions, ParsedRegions(lines))
  {
    if lines != [] {
      var init := lines[..|lines| - 1];
      var rs0 := ParsedRegions(init);
      var rs := ParsedRegions(lines);
      var b0 := BuildFrom(init).value;
      var parsed := ParseBedLine(lines[|lines| - 1]);
      assert Ordered(rs0) by {
        assert forall i :: 0 <= i < |rs0| ==> rs0[i] == rs[i];
      }
      BuildContents(init, b0);
      if parsed.value.Some? {
        var r := parsed.value.value;
        assert rs == rs0 + [r];
        assert r.start <= r.end by {
          assert rs[|rs| - 1] == r;
        }
        PlaceKeepsIndexes(b0, rs0, r, b);
      }
    }
  }

  /** A region with start <= end always finds its end-bin bucket. */
  lemma PlaceOrderedSucceeds(b: Builder, r: BedRegion)
    requires r.start <= r.end
    ensures Place(b, r).Ok? && Place(b, r).value.bin == Some(r.end / BIN_SIZE)
  {
    DivMonotone(r.start, r.end);
    AddBinsSpec(b.regions, r.chrom, r.start / BIN_SIZE, r.end / BIN_SIZE);
  }

  /** A file whose lines all parse and whose regions all have start <= end
      builds without error. */
  lemma {:induction false} BuildSucceeds(lines: seq<string>)
    requires forall i :: 0 <= i < |lines| ==> ParseBedLine(lines[i]).Ok?
    requires Ordered(ParsedRegions(lines))
    ensures BuildFrom(lines).Ok?
  {
    if lines != [] {
      var init := lines[..|lines| - 1];
      var rs := ParsedRegions(lines);
      var rs0 := ParsedRegions(init);
      assert forall i :: 0 <= i < |init| ==> init[i] == lines[i];
      assert Ordered(rs0) by {
        assert forall i :: 0 <= i < |rs0| ==> rs0[i] == rs[i];
      }
      BuildSucceeds(init);
      var parsed := ParseBedLine(lines[|lines| - 1]);
      if parsed.value.Some? {
        assert rs[|rs| - 1] == parsed.value.value;
        PlaceOrderedSucceeds(BuildFrom(init).value, parsed.value.value);
      }
    }
  }

  /** A first region whose end lies in an earlier bin than its start leaves
      the loop variable unbound: the build fails. */
  lemma ReversedFirstRegionFails(line: string, rg: BedRegion)
    requires ParseBedLine(line) == Ok(Some(rg)) && rg.end / BIN_SIZE < rg.start / BIN_SIZE
    ensures BuildFrom([line]) == Err(UnboundLocalError)
  {
    assert [line][..0] == [];
  }

  /** A region of the list that ends in the read's start bin on the read's
      reference, applies to the read's strand and contains its start or end. */
  predicate EndBinHit(rs: seq<BedRegion>, refName: string, r: Read) {
    exists i :: 0 <= i < |rs| && rs[i].chrom == refName && rs[i].end / BIN_SIZE == r.pos / BIN_SIZE &&
      EntryHit(Entry(rs[i]), r)
  }

  lemma {:induction false} BucketHitOfEndBin(rs: seq<BedRegion>, refName: string, r: Read)
    ensures BucketHit(EndBinEntries(rs, (refName, r.pos / BIN_SIZE)), r) <==> EndBinHit(rs, refName, r)
  {
    if rs != [] {
      var key := (refName, r.pos / BIN_SIZE);
      var init := rs[..|rs| - 1];
      var last := rs[|rs| - 1];
      BucketHitOfEndBin(init, refName, r);
      var es0 := EndBinEntries(init, key);
      var es := EndBinEntries(rs, key);
      assert forall j :: 0 <= j < |es0| ==> es[j] == es0[j];
      assert forall i :: 0 <= i < |init| ==> rs[i] == init[i];
      if EndBinHit(rs, refName, r) && !EndBinHit(init, refName, r) {
        assert es[|es0|] == Entry(last);
      }
      if BucketHit(es, r) && !BucketHit(es0, r) {
        assert es[|es0|] == Entry(last);
        assert rs[|rs| - 1] == last;
      }
    }
  }

  /** ExcludeBED on a file whose regions all have start <= end: a mapped read
      fails iff some region that applies to its strand, ENDS in the read's
      start bin and contains the read's start or end. Regions that span the
      read's bin but end in a later bin are never consulted. */
  lemma ExcludeBedSemantics(lines: seq<string>, b: Builder, refName: string, r: Read)
    requires BuildFrom(lines) == Ok(b) && Ordered(ParsedRegions(lines))
    ensures ExcludeBedPass(b.regions, refName, r) <==> IsUnmapped(r) || !EndBinHit(ParsedRegions(lines), refName, r)
  {
    var rs := ParsedRegions(lines);
    var key := (refName, r.pos / BIN_SIZE);
    BuildContents(lines, b);
    assert key in b.regions ==> b.regions[key] == EndBinEntries(rs, key);
    BucketHitOfEndBin(rs, refName, r);
    if key !in b.regions && EndBinEntries(rs, key) != [] {
      EndBinEntriesSpan(rs, key);
    }
  }

  /** The consequence for a region that spans two or more bins: a mapped read
      lying inside it, whose start is in an earlier bin than the region's
      end, is not excluded. */
  lemma SpanningRegionMissed(line: string, b: Builder, refName: string, rg: BedRegion, r: Read)
    requires ParseBedLine(line) == Ok(Some(rg)) && rg.start <= rg.end
    requires BuildFrom([line]) == Ok(b)
    requires !IsUnmapped(r) && refName == rg.chrom
    requires rg.start <= r.pos <= rg.end && r.pos / BIN_SIZE < rg.end / BIN_SIZE
    ensures ExcludeBedPass(b.regions, refName, r)
  {
    assert [line][..0] == [];
    assert ParsedRegions([line]) == [rg];
    ExcludeBedSemantics([line], b, refName, r);
  }
}
