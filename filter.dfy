/** bam_filter: every read of the input is offered to the criteria in order;
    the first criterion that refuses it ends its evaluation and sends it to
    the failed log, and a read that every criterion accepts is written out.
    The loop is stated over any `filter` call and then instantiated with the
    criteria of this program. */
module Filter {
  import opened Wrappers
  import opened Reads
  import opened Regions
  import opened Criteria

  /** A criterion's `filter` call as the loop sees it: the read's position in
      the input, IncludeRegion's `_last`, the criterion and the read. */
  type FilterCall = (nat, Option<nat>, Criterion, Read) -> Outcome

  /** The `filter` calls of this program's criteria. */
  function Evaluator(env: Env, excludes: seq<RegionSpec>): FilterCall {
    (serial: nat, last: Option<nat>, c: Criterion, r: Read) => Eval(env, excludes, last, serial, c, r)
  }

  /** The criteria loop on one read: whether it passed, the index of the
      criterion that refused it (the number of criteria when none did), the
      read as it leaves the loop, and IncludeRegion's `_last`. */
  datatype Verdict = Verdict(pass: bool, failedAt: nat, read: Read, last: Option<nat>)

  /** The criteria loop of bam_filter on the read at position `serial`. */
  function EvalAll(f: FilterCall, serial: nat, last: Option<nat>, cs: seq<Criterion>, r: Read): (v: Verdict)
    ensures v.pass <==> v.failedAt == |cs|
    ensures v.failedAt <= |cs|
  {
    if cs == [] then Verdict(true, 0, r, last)
    else
      var v := EvalAll(f, serial, last, cs[..|cs| - 1], r);
      if !v.pass then v
      else
        var o := f(serial, v.last, cs[|cs| - 1], v.read);
        Verdict(o.pass, if o.pass then |cs| else |cs| - 1, o.read, o.last)
  }

  /** Once a prefix of the criteria refuses the read, the criteria after it
      are not consulted: they neither decide, tag the read nor move `_last`. */
  lemma {:induction false} ShortCircuit(f: FilterCall, serial: nat, last: Option<nat>, cs: seq<Criterion>, r: Read, i: nat)
    requires i <= |cs| && !EvalAll(f, serial, last, cs[..i], r).pass
    ensures EvalAll(f, serial, last, cs, r) == EvalAll(f, serial, last, cs[..i], r)
    decreases |cs| - i
  {
    if i < |cs| {
      assert cs[..i + 1][..i] == cs[..i];
      ShortCircuit(f, serial, last, cs, r, i + 1);
    } else {
      assert cs[..i] == cs;
    }
  }

  /** A refused read was refused by criterion `failedAt`: every criterion
      before it accepted the read, that one refused it, and the verdict is
      the one reached there. */
  lemma {:induction false} FailedAtIsFirstRefusal(f: FilterCall, serial: nat, last: Option<nat>, cs: seq<Criterion>, r: Read)
    requires !EvalAll(f, serial, last, cs, r).pass
    ensures var v := EvalAll(f, serial, last, cs, r);
            var before := EvalAll(f, serial, last, cs[..v.failedAt], r);
            before.pass &&
            !f(serial, before.last, cs[v.failedAt], before.read).pass &&
            EvalAll(f, serial, last, cs[..v.failedAt + 1], r) == v
  {
    var init := cs[..|cs| - 1];
    var v0 := EvalAll(f, serial, last, init, r);
    if !v0.pass {
      FailedAtIsFirstRefusal(f, serial, last, init, r);
      var k := v0.failedAt;
      assert cs[..k] == init[..k] && cs[..k + 1] == init[..k + 1] && cs[k] == init[k];
    } else {
      assert cs[..|cs|] == cs;
    }
  }

  /** An accepted read was accepted by every prefix of the criteria. */
  lemma {:induction false} PassedEveryPrefix(f: FilterCall, serial: nat, last: Option<nat>, cs: seq<Criterion>, r: Read, i: nat)
    requires EvalAll(f, serial, last, cs, r).pass && i <= |cs|
    ensures EvalAll(f, serial, last, cs[..i], r).pass
  {
    if !EvalAll(f, serial, last, cs[..i], r).pass {
      ShortCircuit(f, serial, last, cs, r, i);
    }
  }

  /** A criterion that neither consults IncludeRegion's shared state nor
      tags the read. */
  predicate Plain(c: Criterion) {
    !c.IncludeRegion? && !c.MismatchDbSNP? && !c.MismatchRefDbSNP?
  }

  /** With plain criteria the loop is a conjunction: a read passes iff every
      criterion accepts it, the read leaves unchanged and `_last` does not move. */
  lemma {:induction false} PlainConjunction(env: Env, excludes: seq<RegionSpec>, serial: nat, last: Option<nat>, cs: seq<Criterion>, r: Read)
    requires forall i :: 0 <= i < |cs| ==> Plain(cs[i])
    ensures var v := EvalAll(Evaluator(env, excludes), serial, last, cs, r);
            v.read == r && v.last == last &&
            (v.pass <==> forall i :: 0 <= i < |cs| ==> Eval(env, excludes, last, serial, cs[i], r).pass)
  {
    if cs != [] {
      var init := cs[..|cs| - 1];
      assert forall i :: 0 <= i < |init| ==> init[i] == cs[i];
      PlainConjunction(env, excludes, serial, last, init, r);
      assert Plain(cs[|cs| - 1]);
    }
  }

  /** Two IncludeRegion criteria on a read not seen before: the first
      consults every registered region, the second passes at once because
      the read is `_last`. Together they pass exactly the reads that some
      registered region covers. */
  lemma TwoIncludes(env: Env, excludes: seq<RegionSpec>, serial: nat, last: Option<nat>, a: string, b: string, r: Read)
    requires last != Some(serial)
    ensures var v := EvalAll(Evaluator(env, excludes), serial, last, [IncludeRegion(a), IncludeRegion(b)], r);
            v.last == Some(serial) &&
            (v.pass <==> exists k :: 0 <= k < |excludes| && !ExcludeRegionPass(excludes[k], env.refName(r.tid), r))
  {
    var f := Evaluator(env, excludes);
    var cs := [IncludeRegion(a), IncludeRegion(b)];
    assert cs[..1] == [IncludeRegion(a)];
    assert cs[..1][..0] == [];
    var o1 := Eval(env, excludes, last, serial, IncludeRegion(a), r);
    assert EvalAll(f, serial, last, cs[..1], r) == Verdict(o1.pass, if o1.pass then 1 else 0, r, Some(serial));
  }

  // ---------------------------------------------------------------------
  // The read loop

  /** What bam_filter produces: the reads written out, the `(qname,
      criterion)` lines of the failed log, the two counters, and `_last`. */
  datatype Run = Run(out: seq<Read>, log: seq<(string, Criterion)>, passed: nat, failed: nat, last: Option<nat>)

  /** The run after one more read with verdict `v`: written out when it
      passed, logged with the refusing criterion otherwise. */
  function Next(run: Run, qname: string, cs: seq<Criterion>, v: Verdict): Run
    requires v.pass || v.failedAt < |cs|
  {
    if v.pass then Run(run.out + [v.read], run.log, run.passed + 1, run.failed, v.last)
    else Run(run.out, run.log + [(qname, cs[v.failedAt])], run.passed, run.failed + 1, v.last)
  }

  /** bam_filter on the reads of the input in order; read `i` is identified
      by its position. */
  function FilterRun(f: FilterCall, last: Option<nat>, cs: seq<Criterion>, input: seq<Read>): (run: Run)
    ensures run.passed + run.failed == |input|
    ensures |run.out| == run.passed && |run.log| == run.failed
  {
    if input == [] then Run([], [], 0, 0, last)
    else
      var n := |input| - 1;
      var run := FilterRun(f, last, cs, input[..n]);
      Next(run, input[n].qname, cs, EvalAll(f, n, run.last, cs, input[n]))
  }

  /** Every line of the failed log names a criterion of the list. */
  lemma {:induction false} LogNamesCriteria(f: FilterCall, last: Option<nat>, cs: seq<Criterion>, input: seq<Read>)
    ensures forall j :: 0 <= j < |FilterRun(f, last, cs, input).log| ==> FilterRun(f, last, cs, input).log[j].1 in cs
  {
    if input != [] {
      var n := |input| - 1;
      LogNamesCriteria(f, last, cs, input[..n]);
    }
  }

  /** `part` is an earlier state of the run `whole`: its written reads and
      its log are prefixes of those of `whole`, and its counts are no larger. */
  predicate Extends(part: Run, whole: Run) {
    part.out <= whole.out && part.log <= whole.log &&
    part.passed <= whole.passed && part.failed <= whole.failed
  }

  lemma ExtendsTrans(a: Run, b: Run, c: Run)
    requires Extends(a, b) && Extends(b, c)
    ensures Extends(a, c)
  {
    assert c.out[..|b.out|] == b.out && c.log[..|b.log|] == b.log;
    assert c.out[..|a.out|] == b.out[..|a.out|] && c.log[..|a.log|] == b.log[..|a.log|];
  }

  /** The verdict on read `k` of the input: the criteria loop on it, starting
      from the `_last` that the reads before it left behind. */
  function VerdictAt(f: FilterCall, last: Option<nat>, cs: seq<Criterion>, input: seq<Read>, k: nat): Verdict
    requires k < |input|
  {
    EvalAll(f, k, FilterRun(f, last, cs, input[..k]).last, cs, input[k])
  }

  /** Of the first `n` reads, those whose verdict passes, as they leave the
      criteria, in input order. */
  function PassedReads(f: FilterCall, last: Option<nat>, cs: seq<Criterion>, input: seq<Read>, n: nat): seq<Read>
    requires n <= |input|
  {
    if n == 0 then []
    else
      var v := VerdictAt(f, last, cs, input, n - 1);
      PassedReads(f, last, cs, input, n - 1) + (if v.pass then [v.read] else [])
  }

  /** Of the first `n` reads, a `(qname, criterion)` line for each whose
      verdict fails, naming the refusing criterion, in input order. */
  function FailedLines(f: FilterCall, last: Option<nat>, cs: seq<Criterion>, input: seq<Read>, n: nat): seq<(string, Criterion)>
    requires n <= |input|
  {
    if n == 0 then []
    else
      var v := VerdictAt(f, last, cs, input, n - 1);
      FailedLines(f, last, cs, input, n - 1) + (if v.pass then [] else [(input[n - 1].qname, cs[v.failedAt])])
  }

  lemma ContentsSnoc(f: FilterCall, last: Option<nat>, cs: seq<Criterion>, input: seq<Read>, n: nat)
    requires 0 < n <= |input|
    ensures var v := VerdictAt(f, last, cs, input, n - 1);
            PassedReads(f, last, cs, input, n) == PassedReads(f, last, cs, input, n - 1) + (if v.pass then [v.read] else []) &&
            FailedLines(f, last, cs, input, n) ==
              FailedLines(f, last, cs, input, n - 1) + (if v.pass then [] else [(input[n - 1].qname, cs[v.failedAt])])
  {
  }

  lemma NextContents(run: Run, qname: string, cs: seq<Criterion>, v: Verdict, out: seq<Read>, log: seq<(string, Criterion)>)
    requires v.pass || v.failedAt < |cs|
    requires run.out == out && run.log == log
    ensures Next(run, qname, cs, v).out == out + (if v.pass then [v.read] else [])
    ensures Next(run, qname, cs, v).log == log + (if v.pass then [] else [(qname, cs[v.failedAt])])
  {
  }

  lemma {:induction false} RunContentsPrefix(f: FilterCall, last: Option<nat>, cs: seq<Criterion>, input: seq<Read>, n: nat)
    requires n <= |input|
    ensures FilterRun(f, last, cs, input[..n]).out == PassedReads(f, last, cs, input, n)
    ensures FilterRun(f, last, cs, input[..n]).log == FailedLines(f, last, cs, input, n)
  {
    if n > 0 {
      RunContentsPrefix(f, last, cs, input, n - 1);
      RunSnoc(f, last, cs, input, n - 1);
      ContentsSnoc(f, last, cs, input, n);
      NextContents(FilterRun(f, last, cs, input[..n - 1]), input[n - 1].qname, cs, VerdictAt(f, last, cs, input, n - 1),
                   PassedReads(f, last, cs, input, n - 1), FailedLines(f, last, cs, input, n - 1));
    }
  }

  /** Whatever the criteria, the written reads are the reads whose verdict
      passes, as the criteria left them, in input order, and the failed log
      has one line per other read, naming the criterion that refused it. */
  lemma RunContents(f: FilterCall, last: Option<nat>, cs: seq<Criterion>, input: seq<Read>)
    ensures FilterRun(f, last, cs, input).out == PassedReads(f, last, cs, input, |input|)
    ensures FilterRun(f, last, cs, input).log == FailedLines(f, last, cs, input, |input|)
  {
    RunContentsPrefix(f, last, cs, input, |input|);
    assert input[..|input|] == input;
  }

  /** One more read only extends the run. */
  lemma RunStep(f: FilterCall, last: Option<nat>, cs: seq<Criterion>, input: seq<Read>)
    requires input != []
    ensures Extends(FilterRun(f, last, cs, input[..|input| - 1]), FilterRun(f, last, cs, input))
  {
  }

  /** The run is a stream: the run on a prefix of the input is a prefix of
      the run on the whole input. */
  lemma {:induction false} RunOfPrefix(f: FilterCall, last: Option<nat>, cs: seq<Criterion>, input: seq<Read>, i: nat)
    requires i <= |input|
    ensures Extends(FilterRun(f, last, cs, input[..i]), FilterRun(f, last, cs, input))
    decreases |input|
  {
    if i < |input| {
      var n := |input| - 1;
      assert input[..n][..i] == input[..i];
      RunOfPrefix(f, last, cs, input[..n], i);
      RunStep(f, last, cs, input);
      ExtendsTrans(FilterRun(f, last, cs, input[..i]), FilterRun(f, last, cs, input[..n]), FilterRun(f, last, cs, input));
    } else {
      assert input[..i] == input;
    }
  }

  /** The reads every plain criterion accepts, in input order. */
  function Kept(env: Env, excludes: seq<RegionSpec>, last: Option<nat>, cs: seq<Criterion>, input: seq<Read>): seq<Read> {
    if input == [] then []
    else
      var n := |input| - 1;
      Kept(env, excludes, last, cs, input[..n]) +
        (if forall i :: 0 <= i < |cs| ==> Eval(env, excludes, last, n, cs[i], input[n]).pass then [input[n]] else [])
  }

  /** With plain criteria the output is the input with the refused reads
      removed, unchanged and in order. */
  lemma {:induction false} PlainRunKeeps(env: Env, excludes: seq<RegionSpec>, last: Option<nat>, cs: seq<Criterion>, input: seq<Read>)
    requires forall i :: 0 <= i < |cs| ==> Plain(cs[i])
    ensures FilterRun(Evaluator(env, excludes), last, cs, input).out == Kept(env, excludes, last, cs, input)
    ensures FilterRun(Evaluator(env, excludes), last, cs, input).last == last
  {
    if input != [] {
      var n := |input| - 1;
      PlainRunKeeps(env, excludes, last, cs, input[..n]);
      PlainConjunction(env, excludes, n, last, cs, input[n]);
    }
  }

  /** Without criteria every read is written out unchanged. */
  lemma {:induction false} NoCriteriaKeepsAll(f: FilterCall, last: Option<nat>, input: seq<Read>)
    ensures FilterRun(f, last, [], input).out == input
  {
    if input != [] {
      var n := |input| - 1;
      NoCriteriaKeepsAll(f, last, input[..n]);
      var run := FilterRun(f, last, [], input[..n]);
      assert EvalAll(f, n, run.last, [], input[n]) == Verdict(true, 0, input[n], run.last);
      assert FilterRun(f, last, [], input).out == input[..n] + [input[n]];
      assert input[..n] + [input[n]] == input;
    }
  }

  // ---------------------------------------------------------------------
  // The imperative pipeline

  /** A dbSNP criterion's `filter` once the read is mapped and has more
      mismatches than allowed: count the variations dbSNP does not know. */
  method DbSNPFilter(env: Env, num: int, dbsnpFile: string, chrom: string, vars: seq<Variation>, verbose: bool, r: Read)
    returns (pass: bool, r': Read)
    ensures (pass, r') == DbSNPVerdict(num, CountUnknown(env, dbsnpFile, chrom, vars, verbose),
                                       |vars| - CountUnknown(env, dbsnpFile, chrom, vars, verbose), r)
  {
    var mm, snps := CountVariations(env, dbsnpFile, chrom, vars, verbose);
    pass, r' := DbSNPVerdict(num, mm, snps, r).0, DbSNPVerdict(num, mm, snps, r).1;
  }

  /** The `filter` of the criteria that consult region lists: IncludeRegion,
      IncludeBED and ExcludeBED. */
  method RegionFilter(env: Env, registry: IncludeRegionRegistry, serial: nat, c: Criterion, r: Read)
    returns (pass: bool)
    requires c.IncludeRegion? || c.IncludeBED? || c.ExcludeBED?
    modifies registry`last
    ensures Eval(env, registry.excludes, old(registry.last), serial, c, r) == Outcome(pass, r, registry.last)
  {
    var chrom := env.refName(r.tid);
    if c.IncludeRegion? {
      pass := registry.Filter(chrom, serial, r);
    } else if c.IncludeBED? {
      var excluded := ExcludeBedFilter(c.included, chrom, r);
      pass := !excluded;
    } else {
      pass := ExcludeBedFilter(c.excluded, chrom, r);
    }
  }

  /** The `filter` of the two dbSNP criteria. */
  method DbSNPCriterion(env: Env, c: Criterion, r: Read) returns (pass: bool, r': Read)
    requires c.MismatchDbSNP? || c.MismatchRefDbSNP?
    ensures forall excludes, last, serial :: Eval(env, excludes, last, serial, c, r) == Outcome(pass, r', last)
  {
    var chrom := env.refName(r.tid);
    r' := r;
    if IsUnmapped(r) {
      pass := false;
    } else if c.MismatchRefDbSNP? {
      pass, r' := DbSNPFilter(env, c.num, c.dbsnpFile, chrom, env.calcMismatchesGen(c.refFile, r, chrom), false, r);
    } else if env.calcMismatches(r) <= c.num {
      pass := true;
    } else {
      pass, r' := DbSNPFilter(env, c.num, c.dbsnpFile, chrom, env.calcVariations(r), c.verbose, r);
    }
  }

  /** One `criterion.filter(bamfile, read)` call, through the loops of the
      criteria that have one. */
  method EvalCriterion(env: Env, registry: IncludeRegionRegistry, serial: nat, c: Criterion, r: Read)
    returns (pass: bool, r': Read)
    modifies registry`last
    ensures Eval(env, registry.excludes, old(registry.last), serial, c, r) == Outcome(pass, r', registry.last)
  {
    r' := r;
    if c.IncludeRegion? || c.IncludeBED? || c.ExcludeBED? {
      pass := RegionFilter(env, registry, serial, c, r);
    } else if c.MismatchDbSNP? || c.MismatchRefDbSNP? {
      pass, r' := DbSNPCriterion(env, c, r);
    } else if c.TagCompare? {
      var got := GetValueLoop(c.tag, r);
      pass := TagPass(env, c.op, got, c.value);
    } else {
      pass := Eval(env, registry.excludes, registry.last, serial, c, r).pass;
    }
  }

  /** The run on one more read of the input. */
  lemma RunSnoc(f: FilterCall, last: Option<nat>, cs: seq<Criterion>, input: seq<Read>, i: nat)
    requires i < |input|
    ensures var run := FilterRun(f, last, cs, input[..i]);
            FilterRun(f, last, cs, input[..i + 1]) == Next(run, input[i].qname, cs, EvalAll(f, i, run.last, cs, input[i]))
  {
    assert input[..i + 1][..i] == input[..i];
  }

  /** The criteria loop of bam_filter on one read: criteria in order until
      the first refusal. */
  method CriteriaLoop(env: Env, registry: IncludeRegionRegistry, cs: seq<Criterion>, serial: nat, r: Read)
    returns (pass: bool, failedAt: nat, r': Read)
    modifies registry`last
    ensures EvalAll(Evaluator(env, registry.excludes), serial, old(registry.last), cs, r) ==
            Verdict(pass, failedAt, r', registry.last)
  {
    ghost var f := Evaluator(env, registry.excludes);
    r' := r;
    var j := 0;
    while j < |cs|
      invariant 0 <= j <= |cs|
      invariant EvalAll(f, serial, old(registry.last), cs[..j], r) == Verdict(true, j, r', registry.last)
    {
      assert cs[..j + 1][..j] == cs[..j];
      var ok, read' := EvalCriterion(env, registry, serial, cs[j], r');
      r' := read';
      if !ok {
        ShortCircuit(f, serial, old(registry.last), cs, r, j + 1);
        return false, j, r';
      }
      j := j + 1;
    }
    assert cs[..j] == cs;
    return true, |cs|, r';
  }

  /** bam_filter's loop over the input: reads in order, criteria in order,
      the first refusal logged and counted. */
  method BamFilter(env: Env, registry: IncludeRegionRegistry, cs: seq<Criterion>, input: seq<Read>)
    returns (out: seq<Read>, log: seq<(string, Criterion)>, passed: nat, failed: nat)
    modifies registry`last
    ensures FilterRun(Evaluator(env, registry.excludes), old(registry.last), cs, input) ==
            Run(out, log, passed, failed, registry.last)
  {
    ghost var f := Evaluator(env, registry.excludes);
    out, log, passed, failed := [], [], 0, 0;
    var i := 0;
    while i < |input|
      invariant 0 <= i <= |input|
      invariant FilterRun(f, old(registry.last), cs, input[..i]) == Run(out, log, passed, failed, registry.last)
    {
      ghost var run := Run(out, log, passed, failed, registry.last);
      var p, at, read := CriteriaLoop(env, registry, cs, i, input[i]);
      RunSnoc(f, old(registry.last), cs, input, i);
      ghost var v := Verdict(p, at, read, registry.last);
      assert FilterRun(f, old(registry.last), cs, input[..i + 1]) == Next(run, input[i].qname, cs, v);
      if p {
        passed := passed + 1;
        out := out + [read];
      } else {
        failed := failed + 1;
        log := log + [(input[i].qname, cs[at])];
      }
      i := i + 1;
    }
    assert input[..i] == input;
  }
}
