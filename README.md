# ngsutils read filters, tag chain and GTF-to-BED export, in Dafny

This project models three command-line tools of ngsutils, a toolkit for
next-generation sequencing data, and proves properties of them.

- `bamutils filter` (`ngsutils/bam/filter.py`) reads a BAM file and keeps
  every read that passes all of a list of criteria. The criteria are read-name
  black/white lists, genomic regions given inline or in a BED file, mismatch
  counts (optionally forgiven by dbSNP), flag masks, read length and tag-value
  comparisons. Each read is tested against the criteria in order, and the first
  refusal drops it, logs it with that criterion and counts it as failed.
- `bamutils tag` (`ngsutils/bam/tag.py`) streams reads through a chain of
  processors. The chain can append a suffix to the read name, add a Cufflinks
  `XS:A` strand tag to mapped reads, and append a user-given `KEY[:TYPE]:VALUE`
  tag.
- `gtfutils tobed` (`ngsutils/gtf/tobed.py`) turns gene models into BED rows.
  It can emit:
  - whole genes;
  - 5' and 3' splice junctions;
  - promoter windows, transcription start and end sites;
  - translation start and stop codons;
  - numbered exons and introns;
  - gene regions.

  Every tool except genes, exons, introns and regions de-duplicates sites
  within a gene through a `sites` set.

The modules:

| module | file | contents |
|---|---|---|
| `Wrappers` | wrappers.dfy | `Option` and `Result` |
| `PyText` | pytext.dfy | the Python exceptions the tools can raise (`PyError`) and the Python 2 string and integer built-ins the tools rely on: `strip`, `split`, `join`, `rsplit`, `int()`, `str()`, the syntax of `float()`, and Python 2 string ordering |
| `Bits` | bits.dfy | bitwise AND on flags and single-bit tests |
| `Reads` | reads.dfy | an aligned read as a value (name, flag, position, aligned end, bases, tags) and the `Env` of external services |
| `Regions` | regions.dfy | `ExcludeRegion`, the class-level state shared by `IncludeRegion` instances (the class `IncludeRegionRegistry`), and the binned BED index of `ExcludeBED` |
| `Criteria` | criteria.dfy | every criterion's constructor and its `filter` verdict (`Eval`) |
| `Filter` | filter.dfy | the short-circuit evaluation of a criteria list and the `bam_filter` loop |
| `TagChain` | tag.dfy | `bam_tag`'s chain of `Suffix`, `CufflinksXS` and `Tag` |
| `ToBed` | tobed.dfy | every `gtf_*_tobed` exporter |

Rows are modelled as `BedRow` values. `RowLine` gives each row's
tab-separated text line.

Two places follow the code rather than the prose description of the tools:

- A tag comparison on a read that lacks the tag compares Python 2's `None`,
  which sorts below every value. So `-lt` and `-lte` pass such a read, and
  `-gt`, `-gte` and `-eq` fail it.
- When `IncludeRegion.filter` is called twice for the same read, the second
  call returns `True`. It does not repeat the first verdict. With two
  `-include` criteria, a read therefore passes when any registered region
  covers it.

## Model

| member | source | states |
|---|---|---|
| Regions.ParseInts | ngsutils/bam/filter.py:196 | converting a list of texts with `int` either fails or yields one integer per text |
| Regions.ParseIntsSpec | ngsutils/bam/filter.py:196 | the list conversion succeeds exactly when every element is an integer literal, and then element `i` is `int` of text `i` |
| Regions.NatTextSeparators | ngsutils/bam/filter.py:194-196 | the decimal text of a natural number contains neither `:` nor `-`, so it cannot disturb the region split |
| Regions.SplitRegionText | ngsutils/bam/filter.py:194-196 | `chrom:start-end` splits on `:` into the chromosome and the span, and the span splits on `-` into the two numbers |
| Regions.ParseRegionRoundTrip | ngsutils/bam/filter.py:192-198 | parsing the text written for `chrom`, `s`, `e` gives back that chromosome, the 0-based start `s - 1` and the end `e` |
| Regions.ParseRegionOf | ngsutils/bam/filter.py:192-198 | any region text whose two splits and integer conversions succeed parses to its chromosome, start minus one and end |
| Regions.ParseIntsPair | ngsutils/bam/filter.py:196 | two integer literals convert to the pair of their values |
| Regions.ExcludeRegionOverlap | ngsutils/bam/filter.py:200-207 | on the region's chromosome, a mapped read is excluded exactly when it overlaps the region and does not strictly contain it (a read spanning the whole region slips through) |
| Regions.IncludeSingleRegion | ngsutils/bam/filter.py:158-168 | with one registered region and a new read, include passes exactly when that region's exclude test refuses the read, and the read becomes `_last` |
| Regions.IncludeRegionRegistry.constructor | ngsutils/bam/filter.py:150-152 | the shared state starts with no registered regions and no last read |
| Regions.IncludeRegionRegistry.Register | ngsutils/bam/filter.py:154-155 | registering parses the region; on success it is appended to the shared list, and on a parse error the list is unchanged |
| Regions.IncludeRegionRegistry.Filter | ngsutils/bam/filter.py:158-168 | the verdict and the new `_last` are those of the include step on the shared list and the previous `_last` |
| Regions.AddBinsSpec | ngsutils/bam/filter.py:234-236 | after creating the bins `lo..hi` of a chromosome, the keys are the old keys plus exactly those bins; old bins keep their entries and new bins are empty |
| Regions.BuildFromPrefix | ngsutils/bam/filter.py:220-239 | building the index from one more line is one more step of the per-line loop |
| Regions.BuildErrorPersists | ngsutils/bam/filter.py:217-239 | once a line raises, reading further lines does not change the error |
| Regions.PlaceRegion | ngsutils/bam/filter.py:231-237 | placing one BED region agrees with the step function `Place`, including the reuse of the previous loop's `bin` when the range is empty |
| Regions.BuildBedIndex | ngsutils/bam/filter.py:217-239 | the constructor's loop returns the index built from all lines, or the first error raised |
| Regions.ExcludeBedFilter | ngsutils/bam/filter.py:241-258 | the filter's bucket scan returns the verdict `ExcludeBedPass`, which `ExcludeBedSemantics` characterises |
| Regions.EndBinEntriesSpan | ngsutils/bam/filter.py:231-237 | when every region has start <= end, any bin holding an entry is also created as a key |
| Regions.PlaceKeepsIndexes | ngsutils/bam/filter.py:231-237 | placing an ordered well-formed region keeps the index equal to "keys are the bins some region spans, entries are the regions ending in that bin" |
| Regions.PlaceKeys | ngsutils/bam/filter.py:234-236 | after placing a region, the keys are exactly the bins spanned by some region so far |
| Regions.PlaceBuckets | ngsutils/bam/filter.py:237 | after placing a region, every bucket lists, in order, the regions so far whose end falls in that bin |
| Regions.BuildContents | ngsutils/bam/filter.py:217-239 | a successfully built index over regions that each have start <= end files each region only under the bin of its end |
| Regions.PlaceOrderedSucceeds | ngsutils/bam/filter.py:231-237 | a region with start not after end is always placed, and the loop's `bin` is left at its end bin |
| Regions.BuildSucceeds | ngsutils/bam/filter.py:217-239 | a BED file whose lines all parse and whose regions each have start <= end always builds |
| Regions.ReversedFirstRegionFails | ngsutils/bam/filter.py:234-237 | a first region whose end bin lies before its start bin raises UnboundLocalError, because the loop never binds `bin` |
| Regions.BucketHitOfEndBin | ngsutils/bam/filter.py:244-258 | scanning the read's bucket finds a strand-compatible region covering its start or end exactly when such a region ends in the read's start bin |
| Regions.ExcludeBedSemantics | ngsutils/bam/filter.py:241-258 | over a well-formed file, a read passes ExcludeBED exactly when it is unmapped or no strand-compatible region ending in its start bin covers its start or aligned end |
| Regions.SpanningRegionMissed | ngsutils/bam/filter.py:237-249 | a read starting inside a region that extends into a later bin is not excluded, because the region is filed only under its end bin |
| Criteria.LoadNamesSpec | ngsutils/bam/filter.py:115-120 | loading names succeeds exactly when no line is blank after stripping, and then the list holds each line's first word, in order |
| Criteria.LoadNameList | ngsutils/bam/filter.py:118-120 | the constructor's read loop returns the name list, or the IndexError of the first blank line |
| Criteria.LoadNamesErrorPersists | ngsutils/bam/filter.py:118-120 | once a blank line has raised, later lines do not change the outcome |
| Criteria.MaskFlagHexRoundTrip | ngsutils/bam/filter.py:416-418 | `0x` followed by the hexadecimal digits of `n` builds the mask `n` |
| Criteria.MaskFlagDecimalRoundTrip | ngsutils/bam/filter.py:416-420 | the decimal text of any integer builds the mask with that value |
| Criteria.TagCompareIntRoundTrip | ngsutils/bam/filter.py:486-490 | `NAME:i` with the decimal text of `n` compares tag `NAME` against the integer `n` |
| Criteria.TagCompareTextRoundTrip | ngsutils/bam/filter.py:486-496 | a type other than `i`, `f`, `H` keeps the value as text under the name before the colon |
| Criteria.TagCompareGuess | ngsutils/bam/filter.py:497-507 | an untyped value that `int()` accepts becomes that integer, one that only `float()` accepts becomes a float, and one that neither accepts stays text |
| PyText.SpaceAfterSign | ngsutils/bam/tag.py:87-88 | Python 2's `int()` skips whitespace between the sign and the digits (`int("- 5")` is -5, so `XX:i:- 5` appends -5), while `float()` refuses that text |
| Criteria.NumericArgs | ngsutils/bam/filter.py:267-459 | the numeric criteria take any integer text back to its value and raise ValueError on text that is not an integer |
| Criteria.MaskPassIff | ngsutils/bam/filter.py:425-426 | a read passes the mask exactly when its flag shares no set bit with the mask |
| Criteria.FlagCriteriaAreMasks | ngsutils/bam/filter.py:396-476 | nosecondary is mask 0x100, noqcfail is mask 0x200, and mapped is mask 0x4, plus mask 0x8 for paired reads |
| Criteria.FindTagSpec | ngsutils/bam/filter.py:513-517 | the tag lookup gives None exactly when no tag has the name, and otherwise the value of the first tag with it |
| Criteria.GetValueLoop | ngsutils/bam/filter.py:509-517 | the lookup loop returns the mapping quality for `MAPQ`, and otherwise the first matching tag's value or None |
| Criteria.Order | ngsutils/bam/filter.py:529-568 | the Python 2 comparison of a tag value with the criterion value is decided in the model except exactly when both are numbers and one is a float |
| Criteria.OrderFlips | ngsutils/bam/filter.py:529-568 | comparing the other way round reverses the ordering |
| Criteria.MissingTag | ngsutils/bam/filter.py:513-568 | a missing tag (None) passes `lt` and `lte` and fails `gt`, `gte` and `eq` |
| Criteria.TagComplements | ngsutils/bam/filter.py:526-559 | where the order is known, `lt` passes exactly when `gte` fails, `lte` exactly when `gt` fails, and `eq` exactly when both `lte` and `gte` pass |
| Criteria.TagValuesCompare | ngsutils/bam/filter.py:526-568 | two integers compare numerically and two texts compare lexicographically |
| Criteria.CountUnknown | ngsutils/bam/filter.py:338-342 | the unknown variations never outnumber the variations |
| Criteria.CountVariations | ngsutils/bam/filter.py:335-380 | the counting loop gives the dbSNP-unknown count, and the unknown and known counts add up to the number of variations |
| Criteria.FindTagAppend | ngsutils/bam/filter.py:513-517 | looking a tag up after appending finds the original tag if there was one, and otherwise looks in the appended tags |
| Criteria.ZSReadsBack | ngsutils/bam/filter.py:347-348 | on a read without `ZS`, the appended `ZS` tag reads back as the known-variation count |
| Criteria.Eval | ngsutils/bam/filter.py:122-568 | no criterion but include changes `_last`, and no criterion changes the read except a passing dbSNP criterion that appends a positive `ZS` count |
| Criteria.MismatchCriteria | ngsutils/bam/filter.py:271-388 | every mismatch criterion fails an unmapped read; Mismatch and MismatchRef pass a mapped read exactly when its mismatches are at most `num`; MismatchDbSNP passes it untouched when they are; MismatchRefDbSNP passes exactly when at most `num` variations are unknown to dbSNP (`DbSNPCriteria` gives the full counting path) |
| Criteria.DbSNPCriteria | ngsutils/bam/filter.py:326-388 | on a mapped read (for MismatchDbSNP, one with more than `num` mismatches) the dbSNP criteria pass exactly when at most `num` variations are unknown to dbSNP; a passing read with `snps > 0` known variations leaves tagged `ZS:i:snps`, and otherwise the read is unchanged; `_last` is untouched |
| Criteria.ComplementaryCriteria | ngsutils/bam/filter.py:122-465 | blacklist and whitelist on one list, minlen and maxlen on one bound, and includebed and excludebed on one file each split the reads into complementary halves |
| Filter.EvalAll | ngsutils/bam/filter.py:623-632 | a read passes the criteria list exactly when no criterion refused it, and the refusing position is within the list |
| Filter.ShortCircuit | ngsutils/bam/filter.py:625-632 | once a prefix of the criteria refuses a read, the rest are never consulted |
| Filter.FailedAtIsFirstRefusal | ngsutils/bam/filter.py:625-632 | a failed read was passed by every criterion before the logged one, and refused by the logged one |
| Filter.PassedEveryPrefix | ngsutils/bam/filter.py:625-633 | a read kept by the whole list is kept by every prefix of it |
| Filter.PlainConjunction | ngsutils/bam/filter.py:623-633 | for criteria other than include and the dbSNP ones, the verdict is the conjunction of the separate verdicts, and neither the read nor `_last` changes |
| Filter.TwoIncludes | ngsutils/bam/filter.py:158-168 | two include criteria pass a read exactly when some registered region covers it, because the second call takes the `_last` shortcut |
| Filter.FilterRun | ngsutils/bam/filter.py:618-635 | every read is counted once as kept or failed, one read is written per kept read and one log line per failed read |
| Filter.LogNamesCriteria | ngsutils/bam/filter.py:625-632 | every line of the failed log names a criterion of the list |
| Filter.RunContents | ngsutils/bam/filter.py:621-635 | for any criteria, the written reads are, in input order, the reads whose verdict passes, as the criteria left them, and the log has one `(qname, criterion)` line per other read naming the criterion that refused it |
| Filter.RunOfPrefix | ngsutils/bam/filter.py:621-635 | the output, log and counters of a prefix of the input are prefixes and lower bounds of those of the whole input |
| Filter.PlainRunKeeps | ngsutils/bam/filter.py:621-635 | with plain criteria the output is exactly the input reads that pass every criterion, in order |
| Filter.NoCriteriaKeepsAll | ngsutils/bam/filter.py:621-635 | with no criteria every read is written |
| Filter.DbSNPFilter | ngsutils/bam/filter.py:335-350 | the counting tail of MismatchDbSNP gives the dbSNP verdict on the unknown and known counts |
| Filter.RegionFilter | ngsutils/bam/filter.py:158-258 | the region criteria, running on the shared include state, give `Eval`'s verdict and leave `_last` as it says |
| Filter.DbSNPCriterion | ngsutils/bam/filter.py:326-388 | the dbSNP criteria's code gives `Eval`'s verdict and tagged read, whatever the include state |
| Filter.EvalCriterion | ngsutils/bam/filter.py:122-568 | dispatching one criterion's `filter` gives `Eval`'s verdict, read and new `_last` |
| Filter.CriteriaLoop | ngsutils/bam/filter.py:625-633 | the loop over the criteria for one read ends with the verdict, logged criterion, read and `_last` that `EvalAll` specifies |
| Filter.BamFilter | ngsutils/bam/filter.py:596-642 | the main loop produces the written reads, the failed-read log and both counters of the run that `FilterRun` specifies |
| TagChain.TagValueOf | ngsutils/bam/tag.py:87-92 | converting the tag value can only raise ValueError |
| TagChain.ParseTagArg | ngsutils/bam/tag.py:84-95 | an argument without `:` raises IndexError; the only errors are IndexError and ValueError; a parsed key has no `:` and is a prefix of the argument |
| TagChain.SplitHeadIsPrefix | ngsutils/bam/tag.py:94-95 | the first field of a split is a prefix of the text |
| TagChain.ParseTagArgOf | ngsutils/bam/tag.py:84-95 | an argument splits at its last colon into the key and the text, which is converted by the key's type |
| TagChain.ParseTypedTag | ngsutils/bam/tag.py:84-95 | `KEY:T:VALUE` with a one-letter type parses under `KEY` with the value converted for type `T`, or raises that conversion's error |
| TagChain.ParseUntypedTag | ngsutils/bam/tag.py:84-92 | `KEY:VALUE` appends the text value under `KEY` |
| TagChain.TypedKey | ngsutils/bam/tag.py:87-95 | a `KEY:T` key ends in `:` plus the lower-cased type and strips down to `KEY` |
| TagChain.ParseTextTag | ngsutils/bam/tag.py:84-95 | a type other than `i` or `f` keeps the value as text under `KEY` |
| TagChain.ParseIntTag | ngsutils/bam/tag.py:84-95 | `KEY:i:n` (either case) appends the integer `n` under `KEY` |
| TagChain.ParseIntText | ngsutils/bam/tag.py:84-95 | `KEY:i:text` (either case) appends under `KEY` the integer that `int` reads from the text |
| TagChain.ParseBadIntTag | ngsutils/bam/tag.py:87-88 | `KEY:i:` with a non-integer raises ValueError |
| TagChain.ParseFloatTag | ngsutils/bam/tag.py:84-95 | `KEY:f:x` appends a float under `KEY` when `x` is a float literal, and otherwise raises ValueError |
| TagChain.CufflinksXS | ngsutils/bam/tag.py:107-120 | the copy loop yields the tag list that `XSTagsSpec` describes |
| TagChain.XSTagsSpec | ngsutils/bam/tag.py:109-119 | the new tags keep the old ones in order; a mapped read gains exactly one more, `XS:A` with its strand |
| TagChain.UsageErrorIffNothingToDo | ngsutils/bam/tag.py:30-43 | building the chain stops with the usage error exactly when no suffix, no XS and no tag were asked for; any other failure is a bad tag argument |
| TagChain.ApplyChainSnoc | ngsutils/bam/tag.py:30-45 | a read leaving a chain with one more processor is that processor applied to the read leaving the shorter chain |
| TagChain.ChainEffect | ngsutils/bam/tag.py:30-120 | the whole chain appends the suffix to the name, adds XS when asked, and then appends the parsed tag |
| TagChain.RunStage | ngsutils/bam/tag.py:74-120 | each processor's step is the stage's effect on the read |
| TagChain.RunChain | ngsutils/bam/tag.py:30-45 | passing a read through the processors in turn gives the read leaving the whole chain |
| TagChain.TagReads | ngsutils/bam/tag.py:45-46 | the write loop emits, for each input read in order, that read transformed by the chain |
| TagChain.BamTag | ngsutils/bam/tag.py:17-46 | bam_tag either stops with the chain's error, or writes one read per input read, each transformed by the whole chain |
| ToBed.RowLineFields | ngsutils/gtf/tobed.py:110 | the line written for a row ends in a newline, and splitting it on tabs gives back its six fields |
| ToBed.Kept | ngsutils/gtf/tobed.py:59-61 | the genes that pass the gene filter are genes of the input, and each one passes |
| ToBed.GenesOnePerGene | ngsutils/gtf/tobed.py:106-110 | one row per kept gene, in order, with its chromosome, extent, name, score 0 and strand |
| ToBed.GenesToBed | ngsutils/gtf/tobed.py:106-110 | the loop writes the rows `GenesOnePerGene` describes |
| ToBed.DedupSnoc | ngsutils/gtf/tobed.py:69-71 | one more candidate is written and adds its inserted key exactly when its tested key is not already a site |
| ToBed.DedupSubseq | ngsutils/gtf/tobed.py:62-79 | the written candidates are a subsequence of the candidates, in order |
| ToBed.DedupShape | ngsutils/gtf/tobed.py:62-79 | every written candidate is a candidate, and the sites are exactly the keys the written candidates inserted |
| ToBed.DedupCovers | ngsutils/gtf/tobed.py:62-79 | every candidate ends with its tested or its inserted key among the sites |
| ToBed.DedupFresh | ngsutils/gtf/tobed.py:62-79 | no written candidate tests a key that an earlier written candidate inserted |
| ToBed.DedupHonest | ngsutils/gtf/tobed.py:117-171 | where each candidate tests the key it inserts, each site is written once and every candidate's site is written |
| ToBed.DedupFirst | ngsutils/gtf/tobed.py:118-126 | with one candidate per transcript that tests the key it inserts, a written candidate's key is tested by no earlier transcript |
| ToBed.WriteCandidates | ngsutils/gtf/tobed.py:63-79 | the inner loop extends the written candidates, the sites set and the rows as the de-duplication of the longer candidate list prescribes |
| ToBed.GeneSitesToBed | ngsutils/gtf/tobed.py:62-79 | one gene's loop writes one row per written candidate, named `gene/i` after its transcript |
| ToBed.SitesToBed | ngsutils/gtf/tobed.py:58-185 | every site tool writes the per-gene site rows of each kept gene, gene after gene |
| ToBed.JunctionsSpec | ngsutils/gtf/tobed.py:64-79 | on the exon-end branch each exon but the last gives one candidate; on the other branch each exon but the first does |
| ToBed.JunctionEndStrandHonest | ngsutils/gtf/tobed.py:64-95 | for 5' junctions on `+` and 3' junctions on `-`, every candidate is the base after an exon end and tests the end it inserts |
| ToBed.JunctionCandidatesCover | ngsutils/gtf/tobed.py:64-95 | on those strands, every exon end other than a transcript's last is tested by some candidate |
| ToBed.JunctionEndRows | ngsutils/gtf/tobed.py:58-95 | on those strands, each written junction sits after an exon end, no exon end is written twice, and every non-final exon end is written |
| ToBed.JunctionDuplicate | ngsutils/gtf/tobed.py:73-79 | on the other strand the branch tests the exon start but records the exon end, so a start shared by two transcripts is written twice |
| ToBed.WindowCandidates | ngsutils/gtf/tobed.py:118-157 | the promoter, TSS and TXS tools propose one site per transcript, in transcript order |
| ToBed.WindowWritten | ngsutils/gtf/tobed.py:113-157 | each written window belongs to its transcript's site on the gene's strand |
| ToBed.WindowSitesOnce | ngsutils/gtf/tobed.py:113-157 | each site is written at most once per gene, and every transcript's site is written |
| ToBed.WindowFirstTranscript | ngsutils/gtf/tobed.py:118-157 | a written window's site is the site of no earlier transcript, so its row is named after the first transcript with that site |
| ToBed.WindowRows | ngsutils/gtf/tobed.py:121-156 | each window row spans the window around its site (promoter up/down, or 3 bases) and is named after its transcript, and no earlier transcript of the gene has that site |
| ToBed.NoCdsNoCodons | ngsutils/gtf/tobed.py:167-182 | transcripts without a coding region give no codon rows |
| ToBed.TlssCandidates | ngsutils/gtf/tobed.py:166-171 | every start-codon candidate is the start codon of a coding transcript |
| ToBed.TlssCandidatesCover | ngsutils/gtf/tobed.py:166-171 | every coding transcript's start codon is a candidate |
| ToBed.TlssRows | ngsutils/gtf/tobed.py:160-171 | start codon rows are start codons of coding transcripts, each written once, and none is missing |
| ToBed.TlxsDuplicate | ngsutils/gtf/tobed.py:183-185 | the stop-codon tool tests the stop codon but records the start codon, so a stop codon shared by two transcripts is written twice |
| ToBed.LeastSpan | ngsutils/gtf/tobed.py:197-198 | a non-empty set of spans has a least element in tuple order |
| ToBed.SortedSpans | ngsutils/gtf/tobed.py:197-215 | `sorted` of a set of spans lists each member exactly once in strictly increasing tuple order |
| ToBed.WriteNumbered | ngsutils/gtf/tobed.py:197-216 | the numbering loop writes the k-th span with the number k + 1 |
| ToBed.ExonsOf | ngsutils/gtf/tobed.py:195 | the exon set of a transcript has exactly its exons |
| ToBed.ExonSetSpec | ngsutils/gtf/tobed.py:193-195 | a span is in the gene's exon set exactly when some transcript has it as an exon |
| ToBed.GeneExons | ngsutils/gtf/tobed.py:193-195 | the loops over transcripts and exons collect the gene's exon set |
| ToBed.ExonRowsOrder | ngsutils/gtf/tobed.py:197-198 | exon rows are in strictly increasing order and are named `gene.e1`, `gene.e2`, ... |
| ToBed.ExonRowsExact | ngsutils/gtf/tobed.py:188-198 | a span is an exon row exactly when it is an exon of some transcript |
| ToBed.GeneExonsToBed | ngsutils/gtf/tobed.py:193-198 | one gene's loop writes the rows `ExonRowsOrder` and `ExonRowsExact` describe |
| ToBed.ExonsToBed | ngsutils/gtf/tobed.py:188-198 | the tool writes each kept gene's exon rows, gene after gene |
| ToBed.TranscriptIntrons | ngsutils/gtf/tobed.py:209-213 | the loop over a transcript's exons collects each exon end with the next exon's start, except after an end of 0 |
| ToBed.IntronSetSpec | ngsutils/gtf/tobed.py:206-213 | a span is an intron exactly when some transcript has a non-zero exon end followed directly by an exon starting at the span's end |
| ToBed.GeneIntrons | ngsutils/gtf/tobed.py:206-213 | the loops over transcripts and exons collect the gene's intron set |
| ToBed.IntronRowsSpec | ngsutils/gtf/tobed.py:215-216 | intron rows are strictly increasing, named `gene.i.1`, `gene.i.2`, ..., each an intron, and one row per distinct intron |
| ToBed.IntronAfterZeroSkipped | ngsutils/gtf/tobed.py:211 | an exon ending at coordinate 0 starts no intron, since `if last:` treats 0 like None |
| ToBed.GeneIntronsToBed | ngsutils/gtf/tobed.py:206-216 | one gene's loops write the rows `IntronRowsSpec` describes |
| ToBed.IntronsToBed | ngsutils/gtf/tobed.py:201-216 | the tool writes each kept gene's intron rows, gene after gene |
| ToBed.RegionScore | ngsutils/gtf/tobed.py:225-228 | a region's score is the number of comma-separated source names, one more than its commas |
| ToBed.CountNames | ngsutils/gtf/tobed.py:225-227 | the counting loop counts the fields of the comma split |
| ToBed.RegionLine | ngsutils/gtf/tobed.py:225-228 | the row written for a region is its named, scored region row |
| ToBed.GeneRegionsToBed | ngsutils/gtf/tobed.py:224-228 | one gene's loop writes one row per region, named `gene/const.i` or `gene/alt.i`, scored by its name count |
| ToBed.RegionsToBed | ngsutils/gtf/tobed.py:219-228 | the tool writes each kept gene's region rows, gene after gene |

## Left out

- BAM and text I/O (pysam reading and writing, the failed-read file, the temporary output file and its rename, the ETA progress line, the verbose criteria listing, the final `kept`/`failed` message): the models take the input as a sequence and return the written reads, log lines and counters.
- Reads are values. pysam's in-place updates of `qname` and `tags` are returned as the updated read. The test `read == _last` of `IncludeRegion` is modelled as equality of the read's position in the input stream. pysam's read comparison is not part of this model; the model assumes that no two consecutively evaluated records compare equal, since two identical consecutive records would take the `return True` shortcut even outside every region.
- `read_calc_mismatches`, `read_calc_mismatches_ref`, `read_calc_mismatches_gen`, `read_calc_variations`, `DBSNP.is_valid_variation`, `bam.getrname`, the reference FASTA and its index are outside these files. They are parameters, the function fields of `Env`.
- Floating-point values are kept as their text. `float()` is modelled by a syntax test only, and a comparison involving a float is an `Env` function. `Criteria.Order` leaves exactly those cases to it.
- Python 2's ordering between unrelated types, beyond `None` below everything and the number/text cases, is not modelled.
- Command-line parsing of all three tools (`_criteria` lookup, argument grouping, `-h`, usage text, the promoter argument split, the choice of export tool) is not modelled.
- `__repr__` texts, which only appear in the log file and the verbose listing. The log pairs the read name with the criterion value itself. Two of these texts raise AttributeError as written: `IncludeRegion.__repr__` reads `self.excl` and `MismatchRefDbSNP.__repr__` reads `self.dbsnpname`, neither of which is ever set. So with a failed-read file `bam_filter` aborts on the first read either criterion refuses (filter.py:630), and with `-verbose` it aborts before the first read (filter.py:603). The model logs the refusal and continues.
- The `close()` loop at the end of `bam_filter` is not modelled. It only releases files; as written it would also fail on `MismatchDbSNP`, which has no `close`.
- `read_to_unmapped` is not called by the filter loop.
- `gene_filter_whitelist` builds its name set but returns nothing, so it is not modelled. The exporters take the gene filter as a parameter (`keep`).
- The GTF parser that produces genes, transcripts, exons, codons and regions is not part of this model. The exporters take parsed `Gene` values.
- Criteria.Eval: MismatchDbSNP's `verbose` flag is passed to dbSNP only; its effect on stderr is not modelled.
