/** The criteria of the read filter: how each is built from its command-line
    arguments (the `__init__` methods, with the exceptions they raise on bad
    input) and what each decides about one read (the `filter` methods). */
module Criteria {
  import opened Wrappers
  import opened PyText
  import opened Bits
  import opened Reads
  import opened Regions

  /** One constructed criterion with the state its `__init__` computed. The
      regions of IncludeRegion live in IncludeRegionRegistry, shared by all
      instances; the FASTA and dbSNP files are identified by their names. */
  datatype Criterion =
    | Blacklist(fname: string, notAllowed: seq<string>)
    | Whitelist(fname: string, allowed: seq<string>)
    | IncludeRegion(region: string)
    | IncludeBED(bedFile: string, included: BedIndex)
    | ExcludeRegion(spec: RegionSpec)
    | ExcludeBED(bedFile: string, excluded: BedIndex)
    | Mismatch(num: int)
    | MismatchRef(num: int, refFile: string)
    | MismatchDbSNP(num: int, dbsnpFile: string, verbose: bool)
    | MismatchRefDbSNP(num: int, refFile: string, dbsnpFile: string)
    | Mapped
    | MaskFlag(flag: int)
    | SecondaryFlag
    | QCFailFlag
    | ReadMinLength(minval: int)
    | ReadMaxLength(maxval: int)
    | TagCompare(op: CompareOp, tag: string, value: TagValue)

  // ---------------------------------------------------------------------
  // Construction

  /** The name list of Blacklist and Whitelist: the first word of every
      stripped line; a blank line raises IndexError. */
  function LoadNames(lines: seq<string>): Result<seq<string>, PyError> {
    if lines == [] then Ok([])
    else
      match LoadNames(lines[..|lines| - 1])
      case Err(e) => Err(e)
      case Ok(names) =>
        match FirstWord(Strip(lines[|lines| - 1]))
        case None => Err(IndexError)
        case Some(w) => Ok(names + [w])
  }

  /** The list holds the first word of each line, in order, and loading
      fails exactly when some line is blank. */
  lemma {:induction false} LoadNamesSpec(lines: seq<string>)
    ensures LoadNames(lines).Ok? <==> forall i :: 0 <= i < |lines| ==> FirstWord(Strip(lines[i])).Some?
    ensures LoadNames(lines).Ok? ==>
              |LoadNames(lines).value| == |lines| &&
              forall i :: 0 <= i < |lines| ==> Some(LoadNames(lines).value[i]) == FirstWord(Strip(lines[i]))
  {
    if lines != [] {
      var init := lines[..|lines| - 1];
      LoadNamesSpec(init);
      assert forall i :: 0 <= i < |init| ==> init[i] == lines[i];
    }
  }

  /** The loop of Blacklist.__init__ and Whitelist.__init__. */
  method LoadNameList(lines: seq<string>) returns (r: Result<seq<string>, PyError>)
    ensures r == LoadNames(lines)
  {
    var names: seq<string> := [];
    var i := 0;
    while i < |lines|
      invariant 0 <= i <= |lines|
      invariant LoadNames(lines[..i]) == Ok(names)
    {
      assert lines[..i + 1][..i] == lines[..i];
      var w := FirstWord(Strip(lines[i]));
      if w.None? {
        LoadNamesErrorPersists(lines, i + 1);
        return Err(IndexError);
      }
      names := names + [w.value];
      i := i + 1;
    }
    assert lines[..i] == lines;
    return Ok(names);
  }

  lemma {:induction false} LoadNamesErrorPersists(lines: seq<string>, i: nat)
    requires i <= |lines| && LoadNames(lines[..i]).Err?
    ensures LoadNames(lines) == LoadNames(lines[..i])
    decreases |lines| - i
  {
    if i < |lines| {
      assert lines[..i + 1][..i] == lines[..i];
      LoadNamesErrorPersists(lines, i + 1);
    } else {
      assert lines[..i] == lines;
    }
  }

  function IntArg(s: string): Result<int, PyError> {
    match ParseInt(s)
    case None => Err(ValueError)
    case Some(n) => Ok(n)
  }

  /** MaskFlag.__init__: `0x...` is read as hexadecimal, anything else as a
      decimal int. */
  function NewMaskFlag(value: string): Result<Criterion, PyError> {
    if |value| >= 2 && value[..2] == "0x" then
      match ParseHexPrefixed(value)
      case None => Err(ValueError)
      case Some(n) => Ok(MaskFlag(n))
    else
      match IntArg(value)
      case Err(e) => Err(e)
      case Ok(n) => Ok(MaskFlag(n))
  }

  /** A mask written in hexadecimal with the `0x` prefix is read back. */
  lemma MaskFlagHexRoundTrip(n: nat)
    ensures NewMaskFlag("0x" + DigitsOf(n, 16)) == Ok(MaskFlag(n))
  {
    HexRoundTrip(n);
  }

  /** A mask written as a decimal number is read back. */
  lemma MaskFlagDecimalRoundTrip(n: int)
    ensures NewMaskFlag(IntToString(n)) == Ok(MaskFlag(n))
  {
    IntRoundTrip(n);
    var s := IntToString(n);
    if n > 0 {
      DigitsOfHead(n, 10);
    }
    assert !(|s| >= 2 && s[..2] == "0x") by {
      if n > 0 {
        assert s[0] != '0';
      } else if n < 0 {
        assert s[0] == '-';
      } else {
        assert s == DigitsOf(0, 10) == [DigitChar(0)];
      }
    }
  }

  /** The value argument of a tag comparison, converted as the tag's type
      says: `i` and `H` as int, `f` as float, anything else kept as text. */
  function TypedValue(tagType: string, value: string): Result<TagValue, PyError> {
    if tagType == "i" || tagType == "H" then
      match ParseInt(value)
      case None => Err(ValueError)
      case Some(n) => Ok(IntV(n))
    else if tagType == "f" then
      if IsFloatLiteral(value) then Ok(FloatV(value)) else Err(ValueError)
    else Ok(StrV(value))
  }

  /** Without a type: int if it parses as one, else float, else text. */
  function GuessedValue(value: string): TagValue {
    match ParseInt(value)
    case Some(n) => IntV(n)
    case None => if IsFloatLiteral(value) then FloatV(value) else StrV(value)
  }

  /** _TagCompare.__init__: `name:type` names the tag and fixes the type of
      the value; a bare name makes the value's type a guess. */
  function NewTagCompare(op: CompareOp, tag: string, value: string): Result<Criterion, PyError> {
    if ':' in tag then
      var parts := Split(tag, ':');
      match TypedValue(parts[1], value)
      case Err(e) => Err(e)
      case Ok(v) => Ok(TagCompare(op, parts[0], v))
    else Ok(TagCompare(op, tag, GuessedValue(value)))
  }

  /** `-gte AS:i 1000`: an integer value for an `i`-typed tag is read back. */
  lemma TagCompareIntRoundTrip(op: CompareOp, name: string, n: int)
    requires ':' !in name
    ensures NewTagCompare(op, name + ":i", IntToString(n)) == Ok(TagCompare(op, name, IntV(n)))
  {
    var tag := name + ":i";
    assert tag == name + [':'] + "i";
    SplitAfterPiece(name, ':', "i");
    SplitNoSep("i", ':');
    assert tag[|name|] == ':';
    IntRoundTrip(n);
  }

  /** With any type letter other than i, H and f the value stays text. */
  lemma TagCompareTextRoundTrip(op: CompareOp, name: string, tagType: string, value: string)
    requires ':' !in name && ':' !in tagType
    requires tagType != "i" && tagType != "H" && tagType != "f"
    ensures NewTagCompare(op, name + ":" + tagType, value) == Ok(TagCompare(op, name, StrV(value)))
  {
    var tag := name + ":" + tagType;
    assert tag == name + [':'] + tagType;
    SplitAfterPiece(name, ':', tagType);
    SplitNoSep(tagType, ':');
    assert tag[|name|] == ':';
  }

  /** Without a type an integer literal becomes an int, a float literal
      that is not an integer becomes a float, and anything that is neither
      stays text. */
  lemma TagCompareGuess(op: CompareOp, name: string, value: string)
    requires ':' !in name
    ensures ParseInt(value).Some? ==> NewTagCompare(op, name, value) == Ok(TagCompare(op, name, IntV(ParseInt(value).value)))
    ensures ParseInt(value).None? && IsFloatLiteral(value) ==> NewTagCompare(op, name, value) == Ok(TagCompare(op, name, FloatV(value)))
    ensures ParseInt(value).None? && !IsFloatLiteral(value) ==> NewTagCompare(op, name, value) == Ok(TagCompare(op, name, StrV(value)))
  {
  }

  /** Python's `int(x)` of the single numeric argument of Mismatch,
      MismatchRef, ReadMinLength and ReadMaxLength; the other arguments are
      file names. MismatchDbSNP is verbose only when its optional third
      argument is the word `verbose`. */
  function NewMismatch(num: string): Result<Criterion, PyError> {
    match IntArg(num) case Err(e) => Err(e) case Ok(n) => Ok(Mismatch(n))
  }

  function NewMismatchRef(num: string, refFile: string): Result<Criterion, PyError> {
    match IntArg(num) case Err(e) => Err(e) case Ok(n) => Ok(MismatchRef(n, refFile))
  }

  function NewMismatchDbSNP(num: string, dbsnpFile: string, verbose: Option<string>): Result<Criterion, PyError> {
    match IntArg(num)
    case Err(e) => Err(e)
    case Ok(n) => Ok(MismatchDbSNP(n, dbsnpFile, verbose == Some("verbose")))
  }

  function NewMismatchRefDbSNP(num: string, refFile: string, dbsnpFile: string): Result<Criterion, PyError> {
    match IntArg(num) case Err(e) => Err(e) case Ok(n) => Ok(MismatchRefDbSNP(n, refFile, dbsnpFile))
  }

  function NewReadMinLength(minval: string): Result<Criterion, PyError> {
    match IntArg(minval) case Err(e) => Err(e) case Ok(n) => Ok(ReadMinLength(n))
  }

  function NewReadMaxLength(maxval: string): Result<Criterion, PyError> {
    match IntArg(maxval) case Err(e) => Err(e) case Ok(n) => Ok(ReadMaxLength(n))
  }

  /** The numeric argument of every counting criterion is read back from
      its decimal text, and any other text is refused with ValueError. */
  lemma NumericArgs(n: int, s: string)
    ensures NewMismatch(IntToString(n)) == Ok(Mismatch(n))
    ensures NewReadMinLength(IntToString(n)) == Ok(ReadMinLength(n))
    ensures NewReadMaxLength(IntToString(n)) == Ok(ReadMaxLength(n))
    ensures ParseInt(s).None? ==> NewMismatch(s) == Err(ValueError) && NewReadMinLength(s) == Err(ValueError)
  {
    IntRoundTrip(n);
  }

  // ---------------------------------------------------------------------
  // Flag criteria

  /** MaskFlag.filter: `(read.flag & mask) == 0`. */
  predicate MaskPass(mask: int, r: Read) {
    BitAnd(r.flag, mask) == 0
  }

  /** A read passes a mask iff it shares no set bit with it. */
  lemma MaskPassIff(mask: int, r: Read)
    ensures MaskPass(mask, r) ==> forall k: nat :: !(TestBit(r.flag, k) && TestBit(mask, k))
    ensures !MaskPass(mask, r) ==> exists k: nat :: TestBit(r.flag, k) && TestBit(mask, k)
  {
    AndZeroIffDisjoint(r.flag, mask);
  }

  /** Mapped.filter: a paired read needs itself and its mate mapped, any
      other read needs itself mapped. */
  predicate MappedPass(r: Read) {
    if IsPaired(r) && (IsUnmapped(r) || MateIsUnmapped(r)) then false
    else if IsUnmapped(r) then false
    else true
  }

  lemma Pow2Values()
    ensures Pow2(2) == 4 && Pow2(3) == 8 && Pow2(8) == 256 && Pow2(9) == 512
  {
    assert Pow2(3) == 2 * Pow2(2);
    assert Pow2(9) == 2 * Pow2(8) == 4 * Pow2(7) == 8 * Pow2(6) == 16 * Pow2(5);
  }

  /** `-nosecondary` is `-mask 0x100`, `-noqcfail` is `-mask 0x200`, and
      `-mapped` is `-mask 4` plus `-mask 8` for paired reads. */
  lemma FlagCriteriaAreMasks(r: Read)
    ensures !IsSecondary(r) <==> MaskPass(256, r)
    ensures !IsQcFail(r) <==> MaskPass(512, r)
    ensures MappedPass(r) <==> MaskPass(4, r) && (!IsPaired(r) || MaskPass(8, r))
  {
    Pow2Values();
    AndPow2(r.flag, SECONDARY_BIT);
    AndPow2(r.flag, QCFAIL_BIT);
    AndPow2(r.flag, UNMAPPED_BIT);
    AndPow2(r.flag, MATE_UNMAPPED_BIT);
  }

  // ---------------------------------------------------------------------
  // Tag comparisons

  /** _TagCompare.get_value for a tag other than MAPQ: the value of the
      first tag of that name. */
  function FindTag(tags: seq<Tag>, name: string): Option<TagValue> {
    if tags == [] then None
    else if tags[0].0 == name then Some(tags[0].1)
    else FindTag(tags[1..], name)
  }

  /** FindTag finds the first tag of the name, and None means there is none. */
  lemma {:induction false} FindTagSpec(tags: seq<Tag>, name: string)
    ensures FindTag(tags, name).None? <==> forall i :: 0 <= i < |tags| ==> tags[i].0 != name
    ensures FindTag(tags, name).Some? ==>
              exists i :: 0 <= i < |tags| && tags[i] == (name, FindTag(tags, name).value) &&
                forall j :: 0 <= j < i ==> tags[j].0 != name
  {
    if tags != [] && tags[0].0 != name {
      FindTagSpec(tags[1..], name);
      assert forall i :: 0 < i < |tags| ==> tags[i] == tags[1..][i - 1];
      if FindTag(tags, name).Some? {
        var i :| 0 <= i < |tags[1..]| && tags[1..][i] == (name, FindTag(tags, name).value) &&
          forall j :: 0 <= j < i ==> tags[1..][j].0 != name;
        assert tags[i + 1] == tags[1..][i];
      }
    }
  }

  function GetValue(tag: string, r: Read): Option<TagValue> {
    if tag == "MAPQ" then Some(IntV(r.mapq)) else FindTag(r.tags, tag)
  }

  /** _TagCompare.get_value, as the loop the source runs. */
  method GetValueLoop(tag: string, r: Read) returns (v: Option<TagValue>)
    ensures v == GetValue(tag, r)
  {
    if tag == "MAPQ" {
      return Some(IntV(r.mapq));
    }
    var i := 0;
    while i < |r.tags|
      invariant 0 <= i <= |r.tags|
      invariant FindTag(r.tags[i..], tag) == FindTag(r.tags, tag)
    {
      assert r.tags[i..][1..] == r.tags[i + 1..];
      if r.tags[i].0 == tag {
        return Some(r.tags[i].1);
      }
      i := i + 1;
    }
    return None;
  }

  datatype Ordering = Less | Same | Greater

  function Flip(o: Ordering): Ordering {
    match o
    case Less => Greater
    case Same => Same
    case Greater => Less
  }

  function IntOrder(a: int, b: int): Ordering {
    if a < b then Less else if a == b then Same else Greater
  }

  function StrOrder(a: string, b: string): Ordering {
    if StrLess(a, b) then Less else if a == b then Same else Greater
  }

  predicate IsNumber(v: TagValue) {
    v.IntV? || v.FloatV?
  }

  /** How Python 2 orders a tag's value (None when the read lacks the tag)
      against the criterion's value, where that does not depend on floating
      point: None is below everything, numbers are below strings, ints and
      strings compare by value. None for two numbers one of which is a float. */
  function Order(got: Option<TagValue>, value: TagValue): (o: Option<Ordering>)
    ensures o.None? <==> got.Some? && IsNumber(got.value) && IsNumber(value) && (got.value.FloatV? || value.FloatV?)
  {
    match got
    case None => Some(Less)
    case Some(a) =>
      if a.IntV? && value.IntV? then Some(IntOrder(a.i, value.i))
      else if a.StrV? && value.StrV? then Some(StrOrder(a.s, value.s))
      else if a.StrV? then Some(Greater)
      else if value.StrV? then Some(Less)
      else None
  }

  /** Comparing the other way round flips the outcome. */
  lemma OrderFlips(a: TagValue, b: TagValue)
    requires Order(Some(a), b).Some?
    ensures Order(Some(b), a) == Some(Flip(Order(Some(a), b).value))
  {
    if a.StrV? && b.StrV? {
      StrLessTotal(a.s, b.s);
    }
  }

  predicate Holds(op: CompareOp, o: Ordering) {
    match op
    case Lt => o == Less
    case Lte => o != Greater
    case Gt => o == Greater
    case Gte => o != Less
    case Eq => o == Same
  }

  /** The `filter` of TagLessThan, TagLessThanEquals, TagGreaterThan,
      TagGreaterThanEquals and TagEquals on the value get_value returned. */
  predicate TagPass(env: Env, op: CompareOp, got: Option<TagValue>, value: TagValue) {
    match Order(got, value)
    case Some(o) => Holds(op, o)
    case None => env.floatCompare(op, got.value, value)
  }

  /** A read without the tag passes `lt` and `lte` and fails `gt`, `gte` and `eq`. */
  lemma MissingTag(env: Env, value: TagValue)
    ensures TagPass(env, Lt, None, value) && TagPass(env, Lte, None, value)
    ensures !TagPass(env, Gt, None, value) && !TagPass(env, Gte, None, value) && !TagPass(env, Eq, None, value)
  {
  }

  /** Where the order does not depend on floating point, `lt` and `gte`
      split the reads between them, so do `lte` and `gt`, and `eq` is `lte`
      and `gte` together. */
  lemma TagComplements(env: Env, got: Option<TagValue>, value: TagValue)
    requires Order(got, value).Some?
    ensures TagPass(env, Lt, got, value) == !TagPass(env, Gte, got, value)
    ensures TagPass(env, Lte, got, value) == !TagPass(env, Gt, got, value)
    ensures TagPass(env, Eq, got, value) == (TagPass(env, Lte, got, value) && TagPass(env, Gte, got, value))
  {
  }

  /** Integer tags compare as the integers do; text tags compare by the
      lexicographic order of their bytes, which is a strict total order. */
  lemma TagValuesCompare(env: Env, op: CompareOp, a: TagValue, b: TagValue)
    requires (a.IntV? && b.IntV?) || (a.StrV? && b.StrV?)
    ensures a.IntV? ==> (TagPass(env, Lt, Some(a), b) <==> a.i < b.i) && (TagPass(env, Eq, Some(a), b) <==> a.i == b.i)
    ensures a.StrV? ==> (TagPass(env, Lt, Some(a), b) <==> StrLess(a.s, b.s)) &&
                        (TagPass(env, Gt, Some(a), b) <==> StrLess(b.s, a.s)) &&
                        (TagPass(env, Eq, Some(a), b) <==> a.s == b.s)
  {
    if a.StrV? {
      StrLessTotal(a.s, b.s);
    }
  }

  // ---------------------------------------------------------------------
  // Mismatch counting against dbSNP

  /** The variations dbSNP does not know, among `vars`. */
  function CountUnknown(env: Env, dbsnpFile: string, chrom: string, vars: seq<Variation>, verbose: bool): (n: nat)
    ensures n <= |vars|
  {
    if vars == [] then 0
    else
      CountUnknown(env, dbsnpFile, chrom, vars[..|vars| - 1], verbose) +
        (if env.isValidVariation(dbsnpFile, chrom, vars[|vars| - 1], verbose) then 0 else 1)
  }

  /** The counting loop of MismatchDbSNP.filter and MismatchRefDbSNP.filter:
      `mm` unknown variations and `snps` known ones. */
  method CountVariations(env: Env, dbsnpFile: string, chrom: string, vars: seq<Variation>, verbose: bool)
    returns (mm: nat, snps: nat)
    ensures mm == CountUnknown(env, dbsnpFile, chrom, vars, verbose)
    ensures mm + snps == |vars|
  {
    mm, snps := 0, 0;
    var i := 0;
    while i < |vars|
      invariant 0 <= i <= |vars|
      invariant mm == CountUnknown(env, dbsnpFile, chrom, vars[..i], verbose)
      invariant mm + snps == i
    {
      assert vars[..i + 1][..i] == vars[..i];
      if !env.isValidVariation(dbsnpFile, chrom, vars[i], verbose) {
        mm := mm + 1;
      } else {
        snps := snps + 1;
      }
      i := i + 1;
    }
    assert vars[..i] == vars;
  }

  /** The read with a `ZS` tag counting the known variations appended. */
  function WithZS(r: Read, snps: nat): Read {
    r.(tags := r.tags + [("ZS", IntV(snps))])
  }

  /** The end of both dbSNP filters: too many unknown variations fail the
      read untouched; otherwise it passes, tagged with ZS when some
      variations were known. */
  function DbSNPVerdict(num: int, mm: nat, snps: nat, r: Read): (bool, Read) {
    if mm > num then (false, r)
    else if snps > 0 then (true, WithZS(r, snps))
    else (true, r)
  }

  /** Looking a tag up in two lists laid end to end. */
  lemma {:induction false} FindTagAppend(a: seq<Tag>, b: seq<Tag>, name: string)
    ensures FindTag(a + b, name) == if FindTag(a, name).Some? then FindTag(a, name) else FindTag(b, name)
  {
    if a != [] {
      assert (a + b)[1..] == a[1..] + b;
      FindTagAppend(a[1..], b, name);
    } else {
      assert a + b == b;
    }
  }

  /** The ZS tag appended to a read that had none reads back as the count. */
  lemma ZSReadsBack(r: Read, snps: nat)
    requires FindTag(r.tags, "ZS").None?
    ensures GetValue("ZS", WithZS(r, snps)) == Some(IntV(snps))
  {
    FindTagAppend(r.tags, [("ZS", IntV(snps))], "ZS");
  }

  // ---------------------------------------------------------------------
  // One criterion on one read

  /** What one `filter` call returns, the read as it leaves the call, and the
      shared `_last` of IncludeRegion. */
  datatype Outcome = Outcome(pass: bool, read: Read, last: Option<nat>)

  /** Criterion `c`'s `filter` on the read at position `serial` of the
      input; `excludes` and `last` are IncludeRegion's shared state. */
  function Eval(env: Env, excludes: seq<RegionSpec>, last: Option<nat>, serial: nat, c: Criterion, r: Read): (o: Outcome)
    ensures c.IncludeRegion? || o.last == last
    ensures o.read == r || (o.pass && (c.MismatchDbSNP? || c.MismatchRefDbSNP?) &&
                            exists n: nat :: n > 0 && o.read == WithZS(r, n))
  {
    var chrom := env.refName(r.tid);
    match c
    case Blacklist(_, names) => Outcome(r.qname !in names, r, last)
    case Whitelist(_, names) => Outcome(r.qname in names, r, last)
    case IncludeRegion(_) =>
      var (pass, last') := IncludeStep(excludes, last, chrom, serial, r);
      Outcome(pass, r, last')
    case IncludeBED(_, index) => Outcome(!ExcludeBedPass(index, chrom, r), r, last)
    case ExcludeRegion(spec) => Outcome(ExcludeRegionPass(spec, chrom, r), r, last)
    case ExcludeBED(_, index) => Outcome(ExcludeBedPass(index, chrom, r), r, last)
    case Mismatch(num) => Outcome(!IsUnmapped(r) && env.calcMismatches(r) <= num, r, last)
    case MismatchRef(num, refFile) =>
      Outcome(!IsUnmapped(r) && env.calcMismatchesRef(refFile, r, chrom) <= num, r, last)
    case MismatchDbSNP(num, dbsnpFile, verbose) =>
      if IsUnmapped(r) then Outcome(false, r, last)
      else if env.calcMismatches(r) <= num then Outcome(true, r, last)
      else
        var vars := env.calcVariations(r);
        var mm := CountUnknown(env, dbsnpFile, chrom, vars, verbose);
        var (pass, r') := DbSNPVerdict(num, mm, |vars| - mm, r);
        Outcome(pass, r', last)
    case MismatchRefDbSNP(num, refFile, dbsnpFile) =>
      if IsUnmapped(r) then Outcome(false, r, last)
      else
        var vars := env.calcMismatchesGen(refFile, r, chrom);
        var mm := CountUnknown(env, dbsnpFile, chrom, vars, false);
        var (pass, r') := DbSNPVerdict(num, mm, |vars| - mm, r);
        Outcome(pass, r', last)
    case Mapped => Outcome(MappedPass(r), r, last)
    case MaskFlag(mask) => Outcome(MaskPass(mask, r), r, last)
    case SecondaryFlag => Outcome(!IsSecondary(r), r, last)
    case QCFailFlag => Outcome(!IsQcFail(r), r, last)
    case ReadMinLength(minval) => Outcome(|r.bases| >= minval, r, last)
    case ReadMaxLength(maxval) => Outcome(|r.bases| < maxval, r, last)
    case TagCompare(op, tag, value) => Outcome(TagPass(env, op, GetValue(tag, r), value), r, last)
  }

  /** Every mismatch criterion fails an unmapped read; a mapped read passes
      Mismatch and MismatchRef exactly when it has at most `num` mismatches,
      passes MismatchDbSNP whenever it has at most `num` mismatches, and
      passes MismatchRefDbSNP exactly when at most `num` of its variations
      are unknown to dbSNP. */
  lemma MismatchCriteria(env: Env, excludes: seq<RegionSpec>, last: Option<nat>, serial: nat, c: Criterion, r: Read)
    requires c.Mismatch? || c.MismatchRef? || c.MismatchDbSNP? || c.MismatchRefDbSNP?
    ensures IsUnmapped(r) ==> !Eval(env, excludes, last, serial, c, r).pass
    ensures c.Mismatch? && !IsUnmapped(r) ==>
              (Eval(env, excludes, last, serial, c, r).pass <==> env.calcMismatches(r) <= c.num)
    ensures c.MismatchRef? && !IsUnmapped(r) ==>
              (Eval(env, excludes, last, serial, c, r).pass <==> env.calcMismatchesRef(c.refFile, r, env.refName(r.tid)) <= c.num)
    ensures c.MismatchDbSNP? && !IsUnmapped(r) && env.calcMismatches(r) <= c.num ==>
              Eval(env, excludes, last, serial, c, r) == Outcome(true, r, last)
    ensures c.MismatchRefDbSNP? && !IsUnmapped(r) ==>
              (Eval(env, excludes, last, serial, c, r).pass <==>
                CountUnknown(env, c.dbsnpFile, env.refName(r.tid), env.calcMismatchesGen(c.refFile, r, env.refName(r.tid)), false) <= c.num)
  {
  }

  /** The counting path of the two dbSNP criteria on a mapped read (for
      MismatchDbSNP, one with more than `num` mismatches): the read passes
      exactly when at most `num` of its variations are unknown to dbSNP, and
      a passing read with `snps` known variations, `snps > 0`, leaves tagged
      `ZS:i:snps`; otherwise it leaves untouched. */
  lemma DbSNPCriteria(env: Env, excludes: seq<RegionSpec>, last: Option<nat>, serial: nat, c: Criterion, r: Read)
    requires c.MismatchDbSNP? || c.MismatchRefDbSNP?
    ensures var chrom := env.refName(r.tid);
            var o := Eval(env, excludes, last, serial, c, r);
            c.MismatchDbSNP? && !IsUnmapped(r) && env.calcMismatches(r) > c.num ==>
              var vars := env.calcVariations(r);
              var mm := CountUnknown(env, c.dbsnpFile, chrom, vars, c.verbose);
              o.pass == (mm <= c.num) && o.last == last &&
              o.read == (if o.pass && |vars| - mm > 0 then WithZS(r, |vars| - mm) else r)
    ensures var chrom := env.refName(r.tid);
            var o := Eval(env, excludes, last, serial, c, r);
            c.MismatchRefDbSNP? && !IsUnmapped(r) ==>
              var vars := env.calcMismatchesGen(c.refFile, r, chrom);
              var mm := CountUnknown(env, c.dbsnpFile, chrom, vars, false);
              o.pass == (mm <= c.num) && o.last == last &&
              o.read == (if o.pass && |vars| - mm > 0 then WithZS(r, |vars| - mm) else r)
  {
  }

  /** Blacklist and Whitelist with the same names split the reads; so do
      ReadMinLength and ReadMaxLength with the same bound, and IncludeBED
      and ExcludeBED on the same index. */
  lemma ComplementaryCriteria(env: Env, excludes: seq<RegionSpec>, last: Option<nat>, serial: nat, names: seq<string>,
                              n: int, index: BedIndex, f: string, r: Read)
    ensures Eval(env, excludes, last, serial, Blacklist(f, names), r).pass == !Eval(env, excludes, last, serial, Whitelist(f, names), r).pass
    ensures Eval(env, excludes, last, serial, ReadMinLength(n), r).pass == !Eval(env, excludes, last, serial, ReadMaxLength(n), r).pass
    ensures Eval(env, excludes, last, serial, IncludeBED(f, index), r).pass == !Eval(env, excludes, last, serial, ExcludeBED(f, index), r).pass
  {
  }
}
