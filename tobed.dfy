/** gtfutils tobed: BED rows derived from a gene model. Each tool walks the
    genes the gene filter accepts and writes rows
    `chrom, start, end, name, score, strand`; the site tools keep a per-gene
    set of sites already written. */
module ToBed {
  import opened PyText

  /** A `(start, end)` pair, as the gene model stores exons and codons. */
  type Span = (int, int)

  /** A transcript: its extent, its exons in order, and its codons when it
      has a coding sequence. */
  datatype Transcript = Transcript(start: int, end: int, exons: seq<Span>, hasCds: bool, startCodon: Span, stopCodon: Span)

  /** One of `gene.regions`: number, extent, constant or alternative, and the
      comma-separated names of the transcripts that share it. */
  datatype GeneRegion = GeneRegion(index: int, start: int, end: int, isConst: bool, names: string)

  datatype Gene = Gene(geneName: string, chrom: string, start: int, end: int, strand: string,
                       transcripts: seq<Transcript>, regions: seq<GeneRegion>)

  datatype BedRow = BedRow(chrom: string, start: int, end: int, name: string, score: int, strand: string)

  /** The tab-separated line `out.write` produces for a row. */
  function RowLine(r: BedRow): string {
    Join([r.chrom, IntToString(r.start), IntToString(r.end), r.name, IntToString(r.score), r.strand], '\t') + "\n"
  }

  /** A row's line splits back into its six fields when its text fields hold
      no tab. */
  lemma RowLineFields(r: BedRow)
    requires '\t' !in r.chrom && '\t' !in r.name && '\t' !in r.strand
    ensures var line := RowLine(r);
            |line| >= 1 && line[|line| - 1] == '\n' &&
            Split(line[..|line| - 1], '\t') ==
              [r.chrom, IntToString(r.start), IntToString(r.end), r.name, IntToString(r.score), r.strand]
  {
    var fields := [r.chrom, IntToString(r.start), IntToString(r.end), r.name, IntToString(r.score), r.strand];
    IntToStringChars(r.start);
    IntToStringChars(r.end);
    IntToStringChars(r.score);
    assert forall i :: 0 <= i < |fields| ==> '\t' !in fields[i];
    SplitOfJoin(fields, '\t');
    var line := RowLine(r);
    assert line[..|line| - 1] == Join(fields, '\t');
  }

  /** The rows of one tool: the rows of every gene the filter accepts, gene
      after gene. */
  function AllRows(genes: seq<Gene>, keep: Gene -> bool, rowsOf: Gene -> seq<BedRow>): seq<BedRow> {
    if genes == [] then []
    else
      var g := genes[|genes| - 1];
      AllRows(genes[..|genes| - 1], keep, rowsOf) + (if keep(g) then rowsOf(g) else [])
  }

  /** The genes the filter accepts, in order. */
  function Kept(genes: seq<Gene>, keep: Gene -> bool): (ks: seq<Gene>)
    ensures |ks| <= |genes|
    ensures forall k :: 0 <= k < |ks| ==> ks[k] in genes && keep(ks[k])
  {
    if genes == [] then []
    else
      var g := genes[|genes| - 1];
      Kept(genes[..|genes| - 1], keep) + (if keep(g) then [g] else [])
  }

  // ---------------------------------------------------------------------
  // gtf_genes_tobed

  function GeneRow(g: Gene): seq<BedRow> {
    [BedRow(g.chrom, g.start, g.end, g.geneName, 0, g.strand)]
  }

  /** One row per accepted gene, in gene order, spanning the whole gene. */
  lemma {:induction false} GenesOnePerGene(genes: seq<Gene>, keep: Gene -> bool)
    ensures var rows := AllRows(genes, keep, GeneRow);
            var ks := Kept(genes, keep);
            |rows| == |ks| &&
            forall k :: 0 <= k < |ks| ==> rows[k] == BedRow(ks[k].chrom, ks[k].start, ks[k].end, ks[k].geneName, 0, ks[k].strand)
  {
    if genes != [] {
      GenesOnePerGene(genes[..|genes| - 1], keep);
    }
  }

  method GenesToBed(genes: seq<Gene>, keep: Gene -> bool) returns (rows: seq<BedRow>)
    ensures rows == AllRows(genes, keep, GeneRow)
  {
    rows := [];
    var n := 0;
    while n < |genes|
      invariant 0 <= n <= |genes|
      invariant rows == AllRows(genes[..n], keep, GeneRow)
    {
      assert genes[..n + 1][..n] == genes[..n];
      var g := genes[n];
      if keep(g) {
        rows := rows + [BedRow(g.chrom, g.start, g.end, g.geneName, 0, g.strand)];
      }
      n := n + 1;
    }
    assert genes[..n] == genes;
  }

  // ---------------------------------------------------------------------
  // The site tools: junc5, junc3, promoter, tss, txs, tlss, tlxs

  /** A row a site tool may write for transcript `tx`: the site looked up in
      `sites`, the site added to `sites` when the row is written, and the
      row's extent. */
  datatype Cand<K> = Cand(tx: nat, test: K, insert: K, start: int, end: int)

  /** The per-gene `sites` set once the candidates `cs` are seen: a row is
      written when its test site is not yet in `sites`, and then its insert
      site is added. */
  function Sites<K(==)>(cs: seq<Cand<K>>): set<K> {
    if cs == [] then {}
    else
      var c := cs[|cs| - 1];
      var sites := Sites(cs[..|cs| - 1]);
      if c.test in sites then sites else sites + {c.insert}
  }

  /** The candidates written, in order. */
  function Written<K(==)>(cs: seq<Cand<K>>): seq<Cand<K>> {
    if cs == [] then []
    else
      var c := cs[|cs| - 1];
      if c.test in Sites(cs[..|cs| - 1]) then Written(cs[..|cs| - 1]) else Written(cs[..|cs| - 1]) + [c]
  }

  /** Some candidate of `cs` has test site `x`. */
  predicate Tests<K(==)>(cs: seq<Cand<K>>, x: K) {
    exists k :: 0 <= k < |cs| && cs[k].test == x
  }

  /** One more candidate: written, and its insert site added, exactly when
      its test site is not yet in `sites`. */
  lemma DedupSnoc<K>(cs: seq<Cand<K>>, c: Cand<K>)
    ensures Sites(cs + [c]) == if c.test in Sites(cs) then Sites(cs) else Sites(cs) + {c.insert}
    ensures Written(cs + [c]) == if c.test in Sites(cs) then Written(cs) else Written(cs) + [c]
  {
    assert (cs + [c])[..|cs|] == cs;
  }

  /** `a` is `b` with some elements left out. */
  predicate Subseq<T(==)>(a: seq<T>, b: seq<T>)
    decreases |b|
  {
    a == [] ||
    (b != [] && ((a[|a| - 1] == b[|b| - 1] && Subseq(a[..|a| - 1], b[..|b| - 1])) || Subseq(a, b[..|b| - 1])))
  }

  /** De-duplication keeps the candidates in order, leaving some out. */
  lemma {:induction false} DedupSubseq<K>(cs: seq<Cand<K>>)
    ensures Subseq(Written(cs), cs)
  {
    if cs != [] {
      var init := cs[..|cs| - 1];
      var c := cs[|cs| - 1];
      DedupSubseq(init);
      var e := Written(cs);
      if c.test !in Sites(init) {
        assert e[..|e| - 1] == Written(init);
      }
    }
  }

  /** What de-duplication keeps: candidates, and `sites` holds exactly the
      insert sites of the rows written. */
  lemma {:induction false} DedupShape<K>(cs: seq<Cand<K>>)
    ensures forall k :: 0 <= k < |Written(cs)| ==> Written(cs)[k] in cs
    ensures forall x :: x in Sites(cs) <==> exists k :: 0 <= k < |Written(cs)| && Written(cs)[k].insert == x
  {
    if cs != [] {
      var init := cs[..|cs| - 1];
      var c := cs[|cs| - 1];
      DedupShape(init);
      var d := Written(init);
      var e := Written(cs);
      forall k | 0 <= k < |e| ensures e[k] in cs {
        if k < |d| {
          assert e[k] == d[k] && d[k] in init;
        }
      }
      forall x ensures x in Sites(cs) <==> exists k :: 0 <= k < |e| && e[k].insert == x {
        if c.test !in Sites(init) {
          if x in Sites(cs) && x != c.insert {
            var k :| 0 <= k < |d| && d[k].insert == x;
            assert e[k] == d[k];
          }
          if x == c.insert {
            assert e[|d|] == c;
          }
          if exists k :: 0 <= k < |e| && e[k].insert == x {
            var k :| 0 <= k < |e| && e[k].insert == x;
            if k < |d| {
              assert e[k] == d[k];
            }
          }
        }
      }
    }
  }

  /** Every candidate's test site or insert site ends up in `sites`. */
  lemma {:induction false} DedupCovers<K>(cs: seq<Cand<K>>)
    ensures forall i :: 0 <= i < |cs| ==> cs[i].test in Sites(cs) || cs[i].insert in Sites(cs)
  {
    if cs != [] {
      var init := cs[..|cs| - 1];
      DedupCovers(init);
      assert Sites(init) <= Sites(cs);
      forall i | 0 <= i < |init| ensures cs[i] == init[i] { }
    }
  }

  /** A row is written only when its test site differs from the insert
      site of every row written before it. */
  lemma {:induction false} DedupFresh<K>(cs: seq<Cand<K>>)
    ensures forall i, j :: 0 <= i < j < |Written(cs)| ==> Written(cs)[j].test != Written(cs)[i].insert
  {
    if cs != [] {
      var init := cs[..|cs| - 1];
      DedupFresh(init);
      DedupShape(init);
      var d := Written(init);
      var e := Written(cs);
      forall i, j | 0 <= i < j < |e| ensures e[j].test != e[i].insert {
        assert e[i] == d[i];
        if j < |d| {
          assert e[j] == d[j];
        }
      }
    }
  }

  /** Where every candidate tests the site it inserts, de-duplication is
      honest: the rows written have pairwise distinct sites, and every
      candidate's site has a row. */
  lemma DedupHonest<K>(cs: seq<Cand<K>>)
    requires forall i :: 0 <= i < |cs| ==> cs[i].test == cs[i].insert
    ensures forall i, j :: 0 <= i < j < |Written(cs)| ==> Written(cs)[i].test != Written(cs)[j].test
    ensures forall i :: 0 <= i < |cs| ==> Tests(Written(cs), cs[i].test)
  {
    DedupShape(cs);
    DedupCovers(cs);
    DedupFresh(cs);
    var e := Written(cs);
    forall k | 0 <= k < |e| ensures e[k].test == e[k].insert {
      var i :| 0 <= i < |cs| && cs[i] == e[k];
    }
    forall i | 0 <= i < |cs| ensures Tests(e, cs[i].test) {
      var x := cs[i].test;
      assert x in Sites(cs);
      var k :| 0 <= k < |e| && e[k].insert == x;
    }
  }
  /** Where candidate `i` is transcript `i`'s and tests the key it inserts,
      a written candidate is the first whose key it is: no candidate of an
      earlier transcript tests the same key. */
  lemma {:induction false} DedupFirst<K>(cs: seq<Cand<K>>)
    requires forall i :: 0 <= i < |cs| ==> cs[i].tx == i && cs[i].test == cs[i].insert
    ensures forall k :: 0 <= k < |Written(cs)| ==>
              Written(cs)[k].tx < |cs| && forall j :: 0 <= j < Written(cs)[k].tx ==> cs[j].test != Written(cs)[k].test
  {
    if cs != [] {
      var n := |cs| - 1;
      var init, c := cs[..n], cs[n];
      DedupFirst(init);
      DedupCovers(init);
      var d, e := Written(init), Written(cs);
      forall k | 0 <= k < |e|
        ensures e[k].tx < |cs| && forall j :: 0 <= j < e[k].tx ==> cs[j].test != e[k].test
      {
        if k < |d| {
          assert e[k] == d[k];
          forall j | 0 <= j < e[k].tx ensures cs[j].test != e[k].test {
            assert cs[j] == init[j];
          }
        } else {
          assert c.test !in Sites(init) && e[k] == c;
          forall j | 0 <= j < n ensures cs[j].test != c.test {
            assert init[j] == cs[j] && cs[j].test in Sites(init);
          }
        }
      }
    }
  }


  /** The candidates of the first `n` transcripts of `g`. */
  function Candidates<K>(g: Gene, f: (Gene, nat, Transcript) -> seq<Cand<K>>, n: nat): seq<Cand<K>>
    requires n <= |g.transcripts|
  {
    if n == 0 then [] else Candidates(g, f, n - 1) + f(g, n - 1, g.transcripts[n - 1])
  }

  /** The row for a written candidate: named `gene/i` after its transcript. */
  function SiteRow<K>(g: Gene, c: Cand<K>): BedRow {
    BedRow(g.chrom, c.start, c.end, g.geneName + "/" + IntToString(c.tx), 0, g.strand)
  }

  function SiteRows<K>(g: Gene, e: seq<Cand<K>>): seq<BedRow> {
    seq(|e|, k requires 0 <= k < |e| => SiteRow(g, e[k]))
  }

  /** A site tool's rows for one gene. */
  function GeneSites<K(==)>(f: (Gene, nat, Transcript) -> seq<Cand<K>>, g: Gene): seq<BedRow> {
    SiteRows(g, Written(Candidates(g, f, |g.transcripts|)))
  }

  /** A site tool's rows for one gene, as a function of the gene. */
  function SitesOf<K(==)>(f: (Gene, nat, Transcript) -> seq<Cand<K>>): Gene -> seq<BedRow> {
    g => GeneSites(f, g)
  }

  /** De-duplicating one more candidate of a transcript. */
  lemma DedupStep<K>(before: seq<Cand<K>>, cs: seq<Cand<K>>, j: nat)
    requires j < |cs|
    ensures Sites(before + cs[..j + 1]) ==
            if cs[j].test in Sites(before + cs[..j]) then Sites(before + cs[..j]) else Sites(before + cs[..j]) + {cs[j].insert}
    ensures Written(before + cs[..j + 1]) ==
            if cs[j].test in Sites(before + cs[..j]) then Written(before + cs[..j]) else Written(before + cs[..j]) + [cs[j]]
  {
    assert before + cs[..j + 1] == (before + cs[..j]) + [cs[j]];
    DedupSnoc(before + cs[..j], cs[j]);
  }

  lemma SiteRowsSnoc<K>(g: Gene, e: seq<Cand<K>>, c: Cand<K>)
    ensures SiteRows(g, e + [c]) == SiteRows(g, e) + [SiteRow(g, c)]
  {
  }

  /** The candidates of one transcript, in order: each is written unless
      its test site is in `sites`. */
  method WriteCandidates<K(==)>(g: Gene, ghost before: seq<Cand<K>>, cs: seq<Cand<K>>,
                                ghost written0: seq<Cand<K>>, sites0: set<K>, rows0: seq<BedRow>)
    returns (ghost written: seq<Cand<K>>, sites: set<K>, rows: seq<BedRow>)
    requires Written(before) == written0 && Sites(before) == sites0 && rows0 == SiteRows(g, written0)
    ensures Written(before + cs) == written && Sites(before + cs) == sites && rows == SiteRows(g, written)
  {
    written, sites, rows := written0, sites0, rows0;
    var j := 0;
    assert before + cs[..0] == before;
    while j < |cs|
      invariant 0 <= j <= |cs|
      invariant Written(before + cs[..j]) == written && Sites(before + cs[..j]) == sites
      invariant rows == SiteRows(g, written)
    {
      var c := cs[j];
      DedupStep(before, cs, j);
      if c.test !in sites {
        SiteRowsSnoc(g, written, c);
        rows := rows + [SiteRow(g, c)];
        written := written + [c];
        sites := sites + {c.insert};
      }
      j := j + 1;
    }
    assert cs[..j] == cs;
  }

  lemma CandidatesSnoc<K>(g: Gene, f: (Gene, nat, Transcript) -> seq<Cand<K>>, i: nat)
    requires i < |g.transcripts|
    ensures Candidates(g, f, i + 1) == Candidates(g, f, i) + f(g, i, g.transcripts[i])
  {
  }

  /** A site tool on one gene: for each transcript in order, each candidate
      in order, write it unless its site is in `sites`. */
  method GeneSitesToBed<K(==)>(f: (Gene, nat, Transcript) -> seq<Cand<K>>, g: Gene) returns (rows: seq<BedRow>)
    ensures rows == GeneSites(f, g)
  {
    var sites: set<K> := {};
    ghost var written: seq<Cand<K>> := [];
    rows := [];
    var i := 0;
    while i < |g.transcripts|
      invariant 0 <= i <= |g.transcripts|
      invariant Written(Candidates(g, f, i)) == written && Sites(Candidates(g, f, i)) == sites
      invariant rows == SiteRows(g, written)
    {
      var cs := f(g, i, g.transcripts[i]);
      written, sites, rows := WriteCandidates(g, Candidates(g, f, i), cs, written, sites, rows);
      CandidatesSnoc(g, f, i);
      i := i + 1;
    }
  }

  /** A site tool over every accepted gene. */
  method SitesToBed<K(==)>(genes: seq<Gene>, keep: Gene -> bool, f: (Gene, nat, Transcript) -> seq<Cand<K>>)
    returns (rows: seq<BedRow>)
    ensures rows == AllRows(genes, keep, SitesOf(f))
  {
    rows := [];
    var n := 0;
    while n < |genes|
      invariant 0 <= n <= |genes|
      invariant rows == AllRows(genes[..n], keep, SitesOf(f))
    {
      assert genes[..n + 1][..n] == genes[..n];
      if keep(genes[n]) {
        var more := GeneSitesToBed(f, genes[n]);
        rows := rows + more;
      }
      n := n + 1;
    }
    assert genes[..n] == genes;
  }

  // --- junc5 and junc3

  /** The junction candidates of the first `n` exons of a transcript. On the
      strand where the junction is at an exon's end, every exon but the last
      gives `(end, end + 1)`, looked up and added by `end`. On the other
      strand every exon but the first gives `(start - 1, start)`, looked up
      by `start` but added by `end`. */
  function Junctions(i: nat, exons: seq<Span>, atEnd: bool, n: nat): seq<Cand<int>>
    requires n <= |exons|
  {
    if n == 0 then []
    else
      var j := n - 1;
      var (s, e) := exons[j];
      Junctions(i, exons, atEnd, j) +
        if atEnd then (if j == |exons| - 1 then [] else [Cand(i, e, e, e, e + 1)])
        else (if j == 0 then [] else [Cand(i, s, e, s - 1, s)])
  }

  /** `gtf_junc_5_tobed`: donor sites, at exon ends on `+`. */
  function Junc5Sites(g: Gene, i: nat, tx: Transcript): seq<Cand<int>> {
    Junctions(i, tx.exons, g.strand == "+", |tx.exons|)
  }

  /** `gtf_junc_3_tobed`: acceptor sites, at exon ends on `-`. */
  function Junc3Sites(g: Gene, i: nat, tx: Transcript): seq<Cand<int>> {
    Junctions(i, tx.exons, g.strand == "-", |tx.exons|)
  }

  /** The candidate for the junction after exon `k`: at the end of exon `k`
      on the end strand, at the start of exon `k + 1` on the other. */
  function JunctionAfter(i: nat, exons: seq<Span>, atEnd: bool, k: nat): Cand<int>
    requires k + 1 < |exons|
  {
    if atEnd then Cand(i, exons[k].1, exons[k].1, exons[k].1, exons[k].1 + 1)
    else Cand(i, exons[k + 1].0, exons[k + 1].1, exons[k + 1].0 - 1, exons[k + 1].0)
  }

  /** The junction candidates of a transcript, one per intron. */
  lemma {:induction false} JunctionsSpec(i: nat, exons: seq<Span>, atEnd: bool, n: nat)
    requires n <= |exons|
    ensures var cs := Junctions(i, exons, atEnd, n);
            |cs| == (if n == 0 then 0 else if atEnd && n < |exons| then n else n - 1) &&
            forall k :: 0 <= k < |cs| ==> k + 1 < |exons| && cs[k] == JunctionAfter(i, exons, atEnd, k)
  {
    if n > 0 {
      JunctionsSpec(i, exons, atEnd, n - 1);
    }
  }

  /** A junction candidate looked up and added by the same exon end, and
      covering `(end, end + 1)`. */
  predicate AtExonEnd(c: Cand<int>) {
    c.test == c.insert && c.start == c.test && c.end == c.start + 1
  }

  /** On the end strand junction candidates are honest: each is looked up
      and added by the same exon end, and covers `(end, end + 1)`. */
  lemma {:induction false} JunctionEndStrandHonest(g: Gene, f: (Gene, nat, Transcript) -> seq<Cand<int>>, n: nat)
    requires n <= |g.transcripts|
    requires (f == Junc5Sites && g.strand == "+") || (f == Junc3Sites && g.strand == "-")
    ensures forall k :: 0 <= k < |Candidates(g, f, n)| ==> AtExonEnd(Candidates(g, f, n)[k])
  {
    if n > 0 {
      var prefix := Candidates(g, f, n - 1);
      JunctionEndStrandHonest(g, f, n - 1);
      var tx := g.transcripts[n - 1];
      var more := Junctions(n - 1, tx.exons, true, |tx.exons|);
      JunctionsSpec(n - 1, tx.exons, true, |tx.exons|);
      assert f(g, n - 1, tx) == more;
      var cs := prefix + more;
      forall k | 0 <= k < |cs| ensures AtExonEnd(cs[k]) {
        if k >= |prefix| {
          assert cs[k] == more[k - |prefix|];
        } else {
          assert cs[k] == prefix[k];
        }
      }
    }
  }

  /** On the end strand every exon end but the last of each transcript
      among the first `n` is a candidate. */
  lemma {:induction false} JunctionCandidatesCover(g: Gene, f: (Gene, nat, Transcript) -> seq<Cand<int>>, n: nat)
    requires n <= |g.transcripts|
    requires (f == Junc5Sites && g.strand == "+") || (f == Junc3Sites && g.strand == "-")
    ensures forall t, m :: 0 <= t < n && 0 <= m < |g.transcripts[t].exons| - 1 ==>
              Tests(Candidates(g, f, n), g.transcripts[t].exons[m].1)
  {
    if n > 0 {
      JunctionCandidatesCover(g, f, n - 1);
      var prefix := Candidates(g, f, n - 1);
      var tx := g.transcripts[n - 1];
      var more := Junctions(n - 1, tx.exons, true, |tx.exons|);
      JunctionsSpec(n - 1, tx.exons, true, |tx.exons|);
      assert f(g, n - 1, tx) == more;
      var cs := prefix + more;
      forall t, m | 0 <= t < n && 0 <= m < |g.transcripts[t].exons| - 1
        ensures Tests(cs, g.transcripts[t].exons[m].1)
      {
        if t < n - 1 {
          assert Tests(prefix, g.transcripts[t].exons[m].1);
          var k :| 0 <= k < |prefix| && prefix[k].test == g.transcripts[t].exons[m].1;
          assert cs[k] == prefix[k];
        } else {
          assert cs[|prefix| + m] == more[m];
        }
      }
    }
  }

  /** Junction rows on the end strand: each at an exon end, `(end, end + 1)`,
      no two at the same end, and every exon end but a transcript's last has
      a row. */
  lemma JunctionEndRows(g: Gene, f: (Gene, nat, Transcript) -> seq<Cand<int>>)
    requires (f == Junc5Sites && g.strand == "+") || (f == Junc3Sites && g.strand == "-")
    ensures forall k :: 0 <= k < |Written(Candidates(g, f, |g.transcripts|))| ==>
              AtExonEnd(Written(Candidates(g, f, |g.transcripts|))[k])
    ensures forall i, j :: 0 <= i < j < |Written(Candidates(g, f, |g.transcripts|))| ==>
              Written(Candidates(g, f, |g.transcripts|))[i].test != Written(Candidates(g, f, |g.transcripts|))[j].test
    ensures forall t, m :: 0 <= t < |g.transcripts| && 0 <= m < |g.transcripts[t].exons| - 1 ==>
              Tests(Written(Candidates(g, f, |g.transcripts|)), g.transcripts[t].exons[m].1)
  {
    var cs := Candidates(g, f, |g.transcripts|);
    JunctionEndStrandHonest(g, f, |g.transcripts|);
    JunctionCandidatesCover(g, f, |g.transcripts|);
    DedupShape(cs);
    DedupHonest(cs);
    var e := Written(cs);
    forall k | 0 <= k < |e| ensures AtExonEnd(e[k]) {
      var i :| 0 <= i < |cs| && cs[i] == e[k];
    }
    forall t, m | 0 <= t < |g.transcripts| && 0 <= m < |g.transcripts[t].exons| - 1
      ensures Tests(e, g.transcripts[t].exons[m].1)
    {
      var i :| 0 <= i < |cs| && cs[i].test == g.transcripts[t].exons[m].1;
    }
  }

  /** The quirk on the other strand: two transcripts of a `-` gene that share
      an exon start but not its end both write the same junction row. */
  lemma JunctionDuplicate()
    ensures var t0 := Transcript(100, 400, [(100, 200), (300, 400)], false, (0, 0), (0, 0));
            var t1 := Transcript(150, 500, [(150, 250), (300, 500)], false, (0, 0), (0, 0));
            var g := Gene("g", "chr1", 100, 500, "-", [t0, t1], []);
            GeneSites(Junc5Sites, g) == [BedRow("chr1", 299, 300, "g/0", 0, "-"), BedRow("chr1", 299, 300, "g/1", 0, "-")]
  {
    var t0 := Transcript(100, 400, [(100, 200), (300, 400)], false, (0, 0), (0, 0));
    var t1 := Transcript(150, 500, [(150, 250), (300, 500)], false, (0, 0), (0, 0));
    var g := Gene("g", "chr1", 100, 500, "-", [t0, t1], []);
    var c0 := Cand(0, 300, 400, 299, 300);
    var c1 := Cand(1, 300, 500, 299, 300);
    assert g.strand != "+" by { assert g.strand[0] != '+'; }
    JunctionsSpec(0, t0.exons, false, 2);
    JunctionsSpec(1, t1.exons, false, 2);
    assert Junc5Sites(g, 0, t0) == [c0];
    assert Junc5Sites(g, 1, t1) == [c1];
    TwoTranscriptSites(Junc5Sites, g, c0, c1);
    GeneNameG();
  }

  /** Two candidates where the second does not test what the first
      inserted are both written. */
  lemma TwoWritten<K>(c0: Cand<K>, c1: Cand<K>)
    requires c1.test != c0.insert
    ensures Written([c0] + [c1]) == [c0, c1]
  {
    DedupSnoc([], c0);
    assert [] + [c0] == [c0];
    DedupSnoc([c0], c1);
  }

  /** The rows of candidates from transcripts 0 and 1. */
  lemma FirstTwoRows<K>(g: Gene, c0: Cand<K>, c1: Cand<K>)
    requires c0.tx == 0 && c1.tx == 1
    ensures SiteRows(g, [c0, c1]) ==
            [BedRow(g.chrom, c0.start, c0.end, g.geneName + "/0", 0, g.strand),
             BedRow(g.chrom, c1.start, c1.end, g.geneName + "/1", 0, g.strand)]
  {
    assert IntToString(0) == "0" && IntToString(1) == "1";
    assert g.geneName + "/" + "0" == g.geneName + "/0";
    assert g.geneName + "/" + "1" == g.geneName + "/1";
    var rows := SiteRows(g, [c0, c1]);
    assert |rows| == 2 && rows[0] == SiteRow(g, c0) && rows[1] == SiteRow(g, c1);
  }

  /** A gene of two transcripts with one candidate each, the second not
      testing what the first inserted, writes both rows. */
  lemma TwoTranscriptSites<K>(f: (Gene, nat, Transcript) -> seq<Cand<K>>, g: Gene, c0: Cand<K>, c1: Cand<K>)
    requires |g.transcripts| == 2 && c0.tx == 0 && c1.tx == 1 && c1.test != c0.insert
    requires f(g, 0, g.transcripts[0]) == [c0] && f(g, 1, g.transcripts[1]) == [c1]
    ensures GeneSites(f, g) ==
            [BedRow(g.chrom, c0.start, c0.end, g.geneName + "/0", 0, g.strand),
             BedRow(g.chrom, c1.start, c1.end, g.geneName + "/1", 0, g.strand)]
  {
    assert Candidates(g, f, 1) == [c0];
    assert Candidates(g, f, 2) == [c0] + [c1];
    TwoWritten(c0, c1);
    FirstTwoRows(g, c0, c1);
  }

  lemma GeneNameG()
    ensures "g" + "/0" == "g/0" && "g" + "/1" == "g/1"
  {
  }

  // --- promoter, tss, txs

  /** The tools that write one window per transcript around its start or its
      end, de-duplicated by that position. */
  datatype SiteKind = Promoter(up: int, down: int) | Tss | Txs

  /** Whether the tool's site is the transcript's start for this gene:
      promoter and tss on `+`, txs on `-`. */
  predicate AtStart(kind: SiteKind, g: Gene) {
    if kind.Txs? then g.strand == "-" else g.strand == "+"
  }

  /** The site a transcript contributes: its start or its end. */
  function Site(kind: SiteKind, g: Gene, tx: Transcript): int {
    if AtStart(kind, g) then tx.start else tx.end
  }

  /** The window written around a site: `[site - up, site + down]` upstream
      of a start, `[site - down, site + up]` upstream of an end; three bases
      into the transcript for tss and txs. */
  function Window(kind: SiteKind, g: Gene, tx: Transcript): Span {
    var p := Site(kind, g, tx);
    match kind
    case Promoter(up, down) => if AtStart(kind, g) then (p - up, p + down) else (p - down, p + up)
    case _ => if AtStart(kind, g) then (p, p + 3) else (p - 3, p)
  }

  function WindowSites(kind: SiteKind, g: Gene, i: nat, tx: Transcript): seq<Cand<int>> {
    var w := Window(kind, g, tx);
    [Cand(i, Site(kind, g, tx), Site(kind, g, tx), w.0, w.1)]
  }

  /** `gtf_promoter_tobed`, `gtf_tss_tobed` or `gtf_txs_tobed`. */
  function WindowTool(kind: SiteKind): (Gene, nat, Transcript) -> seq<Cand<int>> {
    (g: Gene, i: nat, tx: Transcript) => WindowSites(kind, g, i, tx)
  }

  /** The candidates of the first `n` transcripts: one each, its window. */
  lemma {:induction false} WindowCandidates(kind: SiteKind, g: Gene, n: nat)
    requires n <= |g.transcripts|
    ensures |Candidates(g, WindowTool(kind), n)| == n
    ensures forall k :: 0 <= k < n ==> Candidates(g, WindowTool(kind), n)[k] == WindowSites(kind, g, k, g.transcripts[k])[0]
  {
    if n > 0 {
      WindowCandidates(kind, g, n - 1);
    }
  }

  /** The candidates a window tool writes for a gene. */
  function WindowWrites(kind: SiteKind, g: Gene): seq<Cand<int>> {
    Written(Candidates(g, WindowTool(kind), |g.transcripts|))
  }

  /** `c` is the window of the transcript it names. */
  predicate WindowOf(kind: SiteKind, g: Gene, c: Cand<int>) {
    c.tx < |g.transcripts| && c.test == c.insert == Site(kind, g, g.transcripts[c.tx]) &&
    (c.start, c.end) == Window(kind, g, g.transcripts[c.tx])
  }

  /** Every row a window tool writes for a gene is the site and window of a
      transcript of that gene. */
  lemma WindowWritten(kind: SiteKind, g: Gene)
    ensures forall k :: 0 <= k < |WindowWrites(kind, g)| ==> WindowOf(kind, g, WindowWrites(kind, g)[k])
  {
    var cs := Candidates(g, WindowTool(kind), |g.transcripts|);
    WindowCandidates(kind, g, |g.transcripts|);
    DedupShape(cs);
    var e := Written(cs);
    forall k | 0 <= k < |e| ensures WindowOf(kind, g, e[k]) {
      var i :| 0 <= i < |cs| && cs[i] == e[k];
    }
  }

  /** The window tools write one row per distinct site of the gene: no two
      rows share a site, and every transcript's site has a row. */
  lemma WindowSitesOnce(kind: SiteKind, g: Gene)
    ensures forall i, j :: 0 <= i < j < |WindowWrites(kind, g)| ==> WindowWrites(kind, g)[i].test != WindowWrites(kind, g)[j].test
    ensures forall t :: 0 <= t < |g.transcripts| ==>
              Tests(WindowWrites(kind, g), Site(kind, g, g.transcripts[t]))
  {
    var cs := Candidates(g, WindowTool(kind), |g.transcripts|);
    WindowCandidates(kind, g, |g.transcripts|);
    DedupHonest(cs);
    forall t | 0 <= t < |g.transcripts|
      ensures Tests(WindowWrites(kind, g), Site(kind, g, g.transcripts[t]))
    {
      assert cs[t].test == Site(kind, g, g.transcripts[t]);
    }
  }

  /** A written window belongs to the first transcript with its site. */
  lemma WindowFirstTranscript(kind: SiteKind, g: Gene)
    ensures forall k :: 0 <= k < |WindowWrites(kind, g)| ==>
              WindowWrites(kind, g)[k].tx <= |g.transcripts| &&
              forall t :: 0 <= t < WindowWrites(kind, g)[k].tx ==>
                Site(kind, g, g.transcripts[t]) != WindowWrites(kind, g)[k].test
  {
    var cs := Candidates(g, WindowTool(kind), |g.transcripts|);
    WindowCandidates(kind, g, |g.transcripts|);
    DedupFirst(cs);
    forall k, t | 0 <= k < |WindowWrites(kind, g)| && 0 <= t < WindowWrites(kind, g)[k].tx
      ensures Site(kind, g, g.transcripts[t]) != WindowWrites(kind, g)[k].test
    {
      assert cs[t].test == Site(kind, g, g.transcripts[t]);
    }
  }

  /** The rows of a window tool: per written site, the window, named after
      the first transcript with that site. */
  lemma WindowRows(kind: SiteKind, g: Gene)
    ensures |GeneSites(WindowTool(kind), g)| == |WindowWrites(kind, g)|
    ensures forall k :: 0 <= k < |WindowWrites(kind, g)| ==>
              var c := WindowWrites(kind, g)[k];
              c.tx < |g.transcripts| &&
              var w := Window(kind, g, g.transcripts[c.tx]);
              GeneSites(WindowTool(kind), g)[k] == BedRow(g.chrom, w.0, w.1, g.geneName + "/" + IntToString(c.tx), 0, g.strand)
    ensures forall k :: 0 <= k < |WindowWrites(kind, g)| ==>
              forall t :: 0 <= t < WindowWrites(kind, g)[k].tx ==>
                Site(kind, g, g.transcripts[t]) != WindowWrites(kind, g)[k].test
  {
    WindowWritten(kind, g);
    WindowFirstTranscript(kind, g);
  }

  // --- tlss and tlxs

  /** `gtf_tlss_tobed`: the start codon of every coding transcript, looked
      up and added by the start codon. */
  function TlssSites(g: Gene, i: nat, tx: Transcript): seq<Cand<Span>> {
    if !tx.hasCds then [] else [Cand(i, tx.startCodon, tx.startCodon, tx.startCodon.0, tx.startCodon.1)]
  }

  /** `gtf_tlxs_tobed`: the stop codon of every coding transcript, looked up
      by the stop codon but added by the start codon. */
  function TlxsSites(g: Gene, i: nat, tx: Transcript): seq<Cand<Span>> {
    if !tx.hasCds then [] else [Cand(i, tx.stopCodon, tx.startCodon, tx.stopCodon.0, tx.stopCodon.1)]
  }

  /** A gene without a coding transcript gets no codon rows. */
  lemma {:induction false} NoCdsNoCodons(g: Gene, n: nat)
    requires n <= |g.transcripts|
    requires forall t :: 0 <= t < |g.transcripts| ==> !g.transcripts[t].hasCds
    ensures Candidates(g, TlssSites, n) == [] && Candidates(g, TlxsSites, n) == []
  {
    if n > 0 {
      NoCdsNoCodons(g, n - 1);
    }
  }

  /** `c` is the start codon of a coding transcript among the first `n`. */
  predicate StartCodonOf(g: Gene, n: nat, c: Cand<Span>) {
    c.tx < n <= |g.transcripts| && g.transcripts[c.tx].hasCds &&
    c.test == c.insert == g.transcripts[c.tx].startCodon && (c.start, c.end) == c.test
  }

  /** Start codon candidates: each the start codon of a coding transcript. */
  lemma {:induction false} TlssCandidates(g: Gene, n: nat)
    requires n <= |g.transcripts|
    ensures forall k :: 0 <= k < |Candidates(g, TlssSites, n)| ==> StartCodonOf(g, n, Candidates(g, TlssSites, n)[k])
  {
    if n > 0 {
      TlssCandidates(g, n - 1);
      var prefix := Candidates(g, TlssSites, n - 1);
      var cs := Candidates(g, TlssSites, n);
      assert cs == prefix + TlssSites(g, n - 1, g.transcripts[n - 1]);
      forall k | 0 <= k < |cs| ensures StartCodonOf(g, n, cs[k]) {
        if k < |prefix| {
          assert cs[k] == prefix[k];
        }
      }
    }
  }

  /** Every coding transcript among the first `n` has a start codon
      candidate. */
  lemma {:induction false} TlssCandidatesCover(g: Gene, n: nat)
    requires n <= |g.transcripts|
    ensures forall t :: 0 <= t < n && g.transcripts[t].hasCds ==> Tests(Candidates(g, TlssSites, n), g.transcripts[t].startCodon)
  {
    if n > 0 {
      TlssCandidatesCover(g, n - 1);
      var prefix := Candidates(g, TlssSites, n - 1);
      var cs := Candidates(g, TlssSites, n);
      assert cs == prefix + TlssSites(g, n - 1, g.transcripts[n - 1]);
      forall t | 0 <= t < n && g.transcripts[t].hasCds ensures Tests(cs, g.transcripts[t].startCodon) {
        if t < n - 1 {
          var k :| 0 <= k < |prefix| && prefix[k].test == g.transcripts[t].startCodon;
          assert cs[k] == prefix[k];
        } else {
          assert cs[|prefix|].test == g.transcripts[t].startCodon;
        }
      }
    }
  }

  /** The start codon candidates a gene writes. */
  function TlssWrites(g: Gene): seq<Cand<Span>> {
    Written(Candidates(g, TlssSites, |g.transcripts|))
  }

  lemma TlssWritesHonest(g: Gene)
    ensures forall k :: 0 <= k < |TlssWrites(g)| ==> StartCodonOf(g, |g.transcripts|, TlssWrites(g)[k])
  {
    var cs := Candidates(g, TlssSites, |g.transcripts|);
    TlssCandidates(g, |g.transcripts|);
    DedupShape(cs);
    var e := Written(cs);
    forall k | 0 <= k < |e| ensures StartCodonOf(g, |g.transcripts|, e[k]) {
      var i :| 0 <= i < |cs| && cs[i] == e[k];
    }
  }

  lemma TlssWritesCover(g: Gene)
    ensures forall t :: 0 <= t < |g.transcripts| && g.transcripts[t].hasCds ==> Tests(TlssWrites(g), g.transcripts[t].startCodon)
  {
    var cs := Candidates(g, TlssSites, |g.transcripts|);
    TlssCandidates(g, |g.transcripts|);
    TlssCandidatesCover(g, |g.transcripts|);
    DedupHonest(cs);
    var e := Written(cs);
    forall t | 0 <= t < |g.transcripts| && g.transcripts[t].hasCds ensures Tests(e, g.transcripts[t].startCodon) {
      var i :| 0 <= i < |cs| && cs[i].test == g.transcripts[t].startCodon;
    }
  }

  /** Start codon rows are honest: each is the start codon of a coding
      transcript, no two rows share a start codon, and every coding
      transcript's start codon has a row. */
  lemma TlssRows(g: Gene)
    ensures forall k :: 0 <= k < |TlssWrites(g)| ==> StartCodonOf(g, |g.transcripts|, TlssWrites(g)[k])
    ensures forall i, j :: 0 <= i < j < |TlssWrites(g)| ==> TlssWrites(g)[i].test != TlssWrites(g)[j].test
    ensures forall t :: 0 <= t < |g.transcripts| && g.transcripts[t].hasCds ==> Tests(TlssWrites(g), g.transcripts[t].startCodon)
  {
    var cs := Candidates(g, TlssSites, |g.transcripts|);
    TlssCandidates(g, |g.transcripts|);
    DedupHonest(cs);
    TlssWritesHonest(g);
    TlssWritesCover(g);
  }

  /** The quirk of tlxs: two coding transcripts with the same stop codon but
      different start codons both write the stop codon. */
  lemma TlxsDuplicate()
    ensures var t0 := Transcript(0, 100, [(0, 100)], true, (10, 13), (90, 93));
            var t1 := Transcript(0, 100, [(0, 100)], true, (20, 23), (90, 93));
            var g := Gene("g", "chr1", 0, 100, "+", [t0, t1], []);
            GeneSites(TlxsSites, g) == [BedRow("chr1", 90, 93, "g/0", 0, "+"), BedRow("chr1", 90, 93, "g/1", 0, "+")]
  {
    var t0 := Transcript(0, 100, [(0, 100)], true, (10, 13), (90, 93));
    var t1 := Transcript(0, 100, [(0, 100)], true, (20, 23), (90, 93));
    var g := Gene("g", "chr1", 0, 100, "+", [t0, t1], []);
    var c0 := Cand(0, (90, 93), (10, 13), 90, 93);
    var c1 := Cand(1, (90, 93), (20, 23), 90, 93);
    assert TlxsSites(g, 0, t0) == [c0];
    assert TlxsSites(g, 1, t1) == [c1];
    TwoTranscriptSites(TlxsSites, g, c0, c1);
    GeneNameG();
  }

  // ---------------------------------------------------------------------
  // Sorted spans: exons and introns

  /** Python's tuple order on spans. */
  predicate SpanLess(a: Span, b: Span) {
    a.0 < b.0 || (a.0 == b.0 && a.1 < b.1)
  }

  predicate StrictlySorted(s: seq<Span>) {
    forall i, j :: 0 <= i < j < |s| ==> SpanLess(s[i], s[j])
  }

  /** `m` is the least span of `s`. */
  predicate IsLeast(m: Span, s: set<Span>) {
    m in s && forall x :: x in s && x != m ==> SpanLess(m, x)
  }

  /** A finite set of spans has a least element. */
  lemma {:induction false} LeastSpan(s: set<Span>)
    requires s != {}
    ensures exists m :: IsLeast(m, s)
    decreases |s|
  {
    var y :| y in s;
    if s != {y} {
      LeastSpan(s - {y});
      var m' :| IsLeast(m', s - {y});
      if SpanLess(y, m') {
        forall x | x in s && x != y ensures SpanLess(y, x) {
          if x != m' {
            assert SpanLess(m', x);
          }
        }
        assert IsLeast(y, s);
      } else {
        assert y != m';
        assert SpanLess(m', y);
        assert IsLeast(m', s);
      }
    } else {
      assert IsLeast(y, s);
    }
  }

  /** `sorted(s)` for a set of spans. */
  function SortedSpans(s: set<Span>): (r: seq<Span>)
    ensures |r| == |s| && StrictlySorted(r)
    ensures forall x :: x in s <==> x in r
    decreases |s|
  {
    if s == {} then []
    else
      LeastSpan(s);
      var m :| IsLeast(m, s);
      var rest := SortedSpans(s - {m});
      ConsLeast(m, s, rest);
      [m] + rest
  }

  /** The least span put in front of the sorted rest gives the sorted set. */
  lemma ConsLeast(m: Span, s: set<Span>, rest: seq<Span>)
    requires IsLeast(m, s)
    requires |rest| == |s - {m}| && StrictlySorted(rest)
    requires forall x :: x in s - {m} <==> x in rest
    ensures |[m] + rest| == |s| && StrictlySorted([m] + rest)
    ensures forall x :: x in s <==> x in [m] + rest
  {
    var r := [m] + rest;
    forall i, j | 0 <= i < j < |r| ensures SpanLess(r[i], r[j]) {
      if i == 0 {
        assert r[j] == rest[j - 1] && r[j] in s - {m};
      } else {
        assert r[i] == rest[i - 1] && r[j] == rest[j - 1];
      }
    }
  }

  /** The rows of a sorted span list, numbered from 1 as `gene<infix>N`. */
  function NumberedRow(g: Gene, span: Span, infix: string, k: nat): BedRow {
    BedRow(g.chrom, span.0, span.1, g.geneName + infix + IntToString(k + 1), 0, g.strand)
  }

  function NumberedRows(g: Gene, spans: seq<Span>, infix: string): seq<BedRow> {
    seq(|spans|, k requires 0 <= k < |spans| => NumberedRow(g, spans[k], infix, k))
  }

  /** Write a sorted span list as numbered rows. */
  method WriteNumbered(g: Gene, spans: seq<Span>, infix: string) returns (rows: seq<BedRow>)
    ensures rows == NumberedRows(g, spans, infix)
  {
    rows := [];
    var i := 0;
    while i < |spans|
      invariant 0 <= i <= |spans| && |rows| == i
      invariant forall k :: 0 <= k < i ==> rows[k] == NumberedRow(g, spans[k], infix, k)
    {
      var (start, end) := spans[i];
      rows := rows + [BedRow(g.chrom, start, end, g.geneName + infix + IntToString(i + 1), 0, g.strand)];
      i := i + 1;
    }
  }

  // --- gtf_exons_tobed

  /** The exons of one transcript, as a set. */
  function ExonsOf(tx: Transcript): (r: set<Span>)
    ensures forall x :: x in r <==> x in tx.exons
  {
    set j | 0 <= j < |tx.exons| :: tx.exons[j]
  }

  /** The exons of the first `n` transcripts, as a set. */
  function ExonSet(g: Gene, n: nat): set<Span>
    requires n <= |g.transcripts|
  {
    if n == 0 then {} else ExonSet(g, n - 1) + ExonsOf(g.transcripts[n - 1])
  }

  function ExonRows(g: Gene): seq<BedRow> {
    NumberedRows(g, SortedSpans(ExonSet(g, |g.transcripts|)), ".e")
  }

  /** A span is in the exon set iff some transcript has that exon. */
  lemma {:induction false} ExonSetSpec(g: Gene, n: nat, x: Span)
    requires n <= |g.transcripts|
    ensures x in ExonSet(g, n) <==> exists t :: 0 <= t < n && x in g.transcripts[t].exons
  {
    if n > 0 {
      ExonSetSpec(g, n - 1, x);
    }
  }

  /** Some row of `rows` covers exactly `x`. */
  predicate Covers(rows: seq<BedRow>, x: Span) {
    exists k :: 0 <= k < |rows| && (rows[k].start, rows[k].end) == x
  }

  /** Some transcript of `g` has exon `x`. */
  predicate IsExon(g: Gene, x: Span) {
    exists t :: 0 <= t < |g.transcripts| && x in g.transcripts[t].exons
  }

  /** The exon rows of a gene are in ascending order, so each exon once,
      named `gene.e1` to `gene.eN`. */
  lemma ExonRowsOrder(g: Gene)
    ensures forall i, j :: 0 <= i < j < |ExonRows(g)| ==>
              SpanLess((ExonRows(g)[i].start, ExonRows(g)[i].end), (ExonRows(g)[j].start, ExonRows(g)[j].end))
    ensures forall k :: 0 <= k < |ExonRows(g)| ==> ExonRows(g)[k].name == g.geneName + ".e" + IntToString(k + 1)
  {
    var spans := SortedSpans(ExonSet(g, |g.transcripts|));
    assert forall k :: 0 <= k < |ExonRows(g)| ==> (ExonRows(g)[k].start, ExonRows(g)[k].end) == spans[k];
  }

  /** The exon rows of a gene are the union of its transcripts' exons: a
      span has a row iff some transcript has that exon. */
  lemma ExonRowsExact(g: Gene, x: Span)
    ensures Covers(ExonRows(g), x) <==> IsExon(g, x)
  {
    var spans := SortedSpans(ExonSet(g, |g.transcripts|));
    var rows := ExonRows(g);
    ExonSetSpec(g, |g.transcripts|, x);
    if x in spans {
      var k :| 0 <= k < |spans| && spans[k] == x;
      assert (rows[k].start, rows[k].end) == x;
    }
    if Covers(rows, x) {
      var k :| 0 <= k < |rows| && (rows[k].start, rows[k].end) == x;
      assert spans[k] == x;
    }
  }

  /** `gtf_exons_tobed` on one gene: gather every transcript's exons, then
      write them sorted and numbered. */
  method GeneExonsToBed(g: Gene) returns (rows: seq<BedRow>)
    ensures rows == ExonRows(g)
  {
    var exons := GeneExons(g);
    rows := WriteNumbered(g, SortedSpans(exons), ".e");
  }

  /** The `exons.update(txscr.exons)` loop over a gene's transcripts. */
  method GeneExons(g: Gene) returns (exons: set<Span>)
    ensures exons == ExonSet(g, |g.transcripts|)
  {
    exons := {};
    var t := 0;
    while t < |g.transcripts|
      invariant 0 <= t <= |g.transcripts|
      invariant exons == ExonSet(g, t)
    {
      exons := exons + ExonsOf(g.transcripts[t]);
      t := t + 1;
    }
  }

  method ExonsToBed(genes: seq<Gene>, keep: Gene -> bool) returns (rows: seq<BedRow>)
    ensures rows == AllRows(genes, keep, ExonRows)
  {
    rows := [];
    var n := 0;
    while n < |genes|
      invariant 0 <= n <= |genes|
      invariant rows == AllRows(genes[..n], keep, ExonRows)
    {
      assert genes[..n + 1][..n] == genes[..n];
      if keep(genes[n]) {
        var more := GeneExonsToBed(genes[n]);
        rows := rows + more;
      }
      n := n + 1;
    }
    assert genes[..n] == genes;
  }

  // --- gtf_introns_tobed

  /** The introns of one transcript: the end of each exon paired with the
      start of the next, skipped when that end is 0 (`if last:`). */
  function TxIntrons(exons: seq<Span>): set<Span> {
    set j | 1 <= j < |exons| && exons[j - 1].1 != 0 :: (exons[j - 1].1, exons[j].0)
  }

  /** The introns of the first `n` transcripts. */
  function IntronSet(g: Gene, n: nat): set<Span>
    requires n <= |g.transcripts|
  {
    if n == 0 then {} else IntronSet(g, n - 1) + TxIntrons(g.transcripts[n - 1].exons)
  }

  function IntronRows(g: Gene): seq<BedRow> {
    NumberedRows(g, SortedSpans(IntronSet(g, |g.transcripts|)), ".i.")
  }

  /** The pairs `(last, start)` the transcript loop adds once it has seen
      the first `k` exons. */
  function IntronsSeen(exons: seq<Span>, k: nat): set<Span>
    requires k <= |exons|
  {
    set j | 1 <= j < k && exons[j - 1].1 != 0 :: (exons[j - 1].1, exons[j].0)
  }

  /** The loop over one transcript's exons, carrying `last`. `last` starts
      at 0 where the source starts at None: the loop only asks whether it
      is truthy, and both are false. */
  method TranscriptIntrons(exons: seq<Span>) returns (introns: set<Span>)
    ensures introns == TxIntrons(exons)
  {
    introns := {};
    var last := 0;
    var k := 0;
    while k < |exons|
      invariant 0 <= k <= |exons|
      invariant last == (if k == 0 then 0 else exons[k - 1].1)
      invariant introns == IntronsSeen(exons, k)
    {
      var (start, end) := exons[k];
      if last != 0 {
        introns := introns + {(last, start)};
      }
      assert IntronsSeen(exons, k + 1) == IntronsSeen(exons, k) + (if k >= 1 && last != 0 then {(last, start)} else {});
      last := end;
      k := k + 1;
    }
    assert IntronsSeen(exons, k) == TxIntrons(exons);
  }

  /** A span is an intron row iff some transcript has an exon ending there
      (at a non-zero end) followed directly by an exon starting there. */
  lemma {:induction false} IntronSetSpec(g: Gene, n: nat, x: Span)
    requires n <= |g.transcripts|
    ensures x in IntronSet(g, n) <==>
            exists t, j :: 0 <= t < n && 1 <= j < |g.transcripts[t].exons| &&
                           g.transcripts[t].exons[j - 1].1 != 0 &&
                           x == (g.transcripts[t].exons[j - 1].1, g.transcripts[t].exons[j].0)
  {
    if n > 0 {
      IntronSetSpec(g, n - 1, x);
    }
  }

  /** The intron rows of a gene: each distinct intron once, ascending, named
      `gene.i.1` to `gene.i.N`. */
  lemma IntronRowsSpec(g: Gene)
    ensures var rows := IntronRows(g);
            var spans := SortedSpans(IntronSet(g, |g.transcripts|));
            (forall i, j :: 0 <= i < j < |rows| ==> SpanLess((rows[i].start, rows[i].end), (rows[j].start, rows[j].end))) &&
            (forall k :: 0 <= k < |rows| ==> rows[k].name == g.geneName + ".i." + IntToString(k + 1) &&
                                             (rows[k].start, rows[k].end) in IntronSet(g, |g.transcripts|)) &&
            |rows| == |IntronSet(g, |g.transcripts|)|
  {
    var spans := SortedSpans(IntronSet(g, |g.transcripts|));
    var rows := IntronRows(g);
    forall k | 0 <= k < |rows| ensures (rows[k].start, rows[k].end) == spans[k] { }
  }

  /** The quirk of `if last:`: an exon ending at position 0 opens no intron. */
  lemma IntronAfterZeroSkipped()
    ensures TxIntrons([(-10, 0), (5, 20)]) == {}
  {
    var exons: seq<Span> := [(-10, 0), (5, 20)];
    assert exons[0].1 == 0;
  }

  /** `gtf_introns_tobed` on one gene. */
  method GeneIntronsToBed(g: Gene) returns (rows: seq<BedRow>)
    ensures rows == IntronRows(g)
  {
    var introns := GeneIntrons(g);
    rows := WriteNumbered(g, SortedSpans(introns), ".i.");
  }

  /** The loop over a gene's transcripts that gathers their introns. */
  method GeneIntrons(g: Gene) returns (introns: set<Span>)
    ensures introns == IntronSet(g, |g.transcripts|)
  {
    introns := {};
    var t := 0;
    while t < |g.transcripts|
      invariant 0 <= t <= |g.transcripts|
      invariant introns == IntronSet(g, t)
    {
      var more := TranscriptIntrons(g.transcripts[t].exons);
      introns := introns + more;
      t := t + 1;
    }
  }

  method IntronsToBed(genes: seq<Gene>, keep: Gene -> bool) returns (rows: seq<BedRow>)
    ensures rows == AllRows(genes, keep, IntronRows)
  {
    rows := [];
    var n := 0;
    while n < |genes|
      invariant 0 <= n <= |genes|
      invariant rows == AllRows(genes[..n], keep, IntronRows)
    {
      assert genes[..n + 1][..n] == genes[..n];
      if keep(genes[n]) {
        var more := GeneIntronsToBed(genes[n]);
        rows := rows + more;
      }
      n := n + 1;
    }
    assert genes[..n] == genes;
  }

  // ---------------------------------------------------------------------
  // gtf_regions_tobed

  /** A region's row: named `gene/const.i` or `gene/alt.i`, scored by the
      number of comma-separated names. */
  function RegionRow(g: Gene, reg: GeneRegion): BedRow {
    BedRow(g.chrom, reg.start, reg.end,
           g.geneName + "/" + (if reg.isConst then "const" else "alt") + "." + IntToString(reg.index),
           |Split(reg.names, ',')|, g.strand)
  }

  function GeneRegionRows(g: Gene): seq<BedRow> {
    seq(|g.regions|, k requires 0 <= k < |g.regions| => RegionRow(g, g.regions[k]))
  }

  /** A region shared by the transcripts `names` scores one per name. */
  lemma RegionScore(g: Gene, reg: GeneRegion, names: seq<string>)
    requires |names| >= 1 && forall i :: 0 <= i < |names| ==> ',' !in names[i]
    requires reg.names == Join(names, ',')
    ensures RegionRow(g, reg).score == |names| == CountChar(reg.names, ',') + 1
  {
    SplitOfJoin(names, ',');
  }

  /** The count loop over `names.split(',')`. */
  method CountNames(names: string) returns (count: nat)
    ensures count == |Split(names, ',')|
  {
    var parts := Split(names, ',');
    count := 0;
    var i := 0;
    while i < |parts|
      invariant 0 <= i <= |parts| && count == i
    {
      count := count + 1;
      i := i + 1;
    }
  }

  /** The row written for one region. */
  method RegionLine(g: Gene, reg: GeneRegion) returns (row: BedRow)
    ensures row == RegionRow(g, reg)
  {
    var count := CountNames(reg.names);
    var name := g.geneName + "/" + (if reg.isConst then "const" else "alt") + "." + IntToString(reg.index);
    row := BedRow(g.chrom, reg.start, reg.end, name, count, g.strand);
  }

  /** `gtf_regions_tobed` on one gene. */
  method GeneRegionsToBed(g: Gene) returns (rows: seq<BedRow>)
    ensures rows == GeneRegionRows(g)
  {
    rows := [];
    var k := 0;
    while k < |g.regions|
      invariant 0 <= k <= |g.regions|
      invariant rows == GeneRegionRows(g)[..k]
    {
      var row := RegionLine(g, g.regions[k]);
      assert GeneRegionRows(g)[..k + 1] == GeneRegionRows(g)[..k] + [row];
      rows := rows + [row];
      k := k + 1;
    }
    assert GeneRegionRows(g)[..k] == GeneRegionRows(g);
  }

  method RegionsToBed(genes: seq<Gene>, keep: Gene -> bool) returns (rows: seq<BedRow>)
    ensures rows == AllRows(genes, keep, GeneRegionRows)
  {
    rows := [];
    var n := 0;
    while n < |genes|
      invariant 0 <= n <= |genes|
      invariant rows == AllRows(genes[..n], keep, GeneRegionRows)
    {
      assert genes[..n + 1][..n] == genes[..n];
      if keep(genes[n]) {
        var more := GeneRegionsToBed(genes[n]);
        rows := rows + more;
      }
      n := n + 1;
    }
    assert genes[..n] == genes;
  }
}
