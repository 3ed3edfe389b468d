# Trajecta acceptance tools: a verified model

Trajecta's acceptance tools decide whether a finished particle run, a prepared terrain raster, a
downloaded archive or a release package can be trusted. This project models the tools that carry an
algorithm of their own and proves what each is for, over all inputs and all runs.

| component | source | Dafny modules |
|---|---|---|
| lifecycle and population audits of a finished run | `run_m4_a4_real_matrix.py` | `RunTables`, `LifecycleAudit`, `LifecycleMirror`, `LifecycleGap`, `PopulationAudit` |
| TGRID tiled raster: writer and runtime reader | `prepare_gmted2010.py`, `gmted2010.rs` | `TileGrid`, `TileGridReader` |
| GRIB2 section walker | `era5_hybrid_official_pipeline.py` | `Grib2`, `Grib2Vectors` |
| resumable verified download | `fetch_cfsr_pgbl.py` | `Download` |
| path-normalized provenance digests | `run_m5_a5_formal.py` | `ProvenanceDigest`, `ProvenanceRelocation`, `ProvenanceMeaning` |
| canonical provenance bundles | `validate_m4_a0_contracts.py` | `CanonicalBundle` |
| release package: paths, source tree, dependencies | `m5_a4_package.py` | `PackagePaths`, `SourceTree`, `DependencyClosure` |
| chunked token search | `run_m5_a4_product_matrix.py` | `TokenSearch` |
| numeric comparison of two databases | `run_m4_a3_native_diff.py` | `OrderedDouble`, `DiffMetrics` |
| anchor lattice | `fetch_trajecta_data.py` | `Anchors` |
| layer geometry | `derive_m6_twpice_column.py` | `LayerGeometry` |

`Wrappers`, `Bytes`, `Counting` (with `Numbering`), `Sorting` and `Separated` (with `Mapping`) are shared.

Where the source works step by step the model does too (loops over files, arrays and mutable objects), and
each such method is proved equal to a specification function or to a predicate that says what its result is;
the theorems are about those. The audits are declarative SQL and are stated as sets and cardinalities.

## How the parts fit

* **Audits.** A run's tables are one run's rows: particles, terminations and output events as sets, states as a
  list, because nothing but a unique index makes state rows distinct. The primary keys and the key from state to
  event come from the schema file `testdata/M4_SQLITE_SCHEMA.v1.sql`; the unique index on samples is created by
  the audit itself, so it is proved about and not assumed. `Count` computes the queries; `FaithfulRun` and
  `FaithfulPopulation` mention no counter; the two `AuditIsExact` lemmas say they agree, both ways.
* **TGRID.** The writer is proved to produce header, index and payload; the reader is an independent model of the
  Rust code; `RasterRoundTrip` composes the two over any raster.
* **Download.** `Run` is the protocol as a state machine over the server's answers; `Workspace.Download` is the
  loop over real file fields and equals it. The safety lemma quantifies over every server, the others over honest
  servers, request by request.
* **Digests.** Hashes are parameters. Invariance needs nothing of them; the converse needs them injective.
  `DigestsMean` says in terms of source texts, field names and references what equal digests mean.
* **GRIB2.** `Grib2` reads sections as bytes; `Grib2Vectors` prints product sections from two arrays and shows that
  exactly these are read, and what comes back.

## What does not hold of the code, and when it does

* The lifecycle flag accepts a row outside its particle's lifetime exactly when some termination precedes its
  particle's birth (`LifetimesExact`, `TerminationBeforeBirthIsAccepted`).
* The flag accepts a row of an unknown particle exactly when some termination is of an unknown particle
  (`OrphanRowsExact`, `OrphanRowIsAccepted`). The schema file has a key to particle on both tables, lines 115 and
  130, and each alone rules this out; `RunTables.Schema` includes neither, because the audit reads a copy without
  keys and its verdict does not rest on them.
* The flag accepts samples that run against the clock: in an accepted run samples are in clock order exactly when
  events that share a particle are numbered in clock order (`SampleClockExact`, `ShuffledSamplesAreAccepted`).
* A closing row with a null reason passes the termination check, because SQL's `!=` is unknown on null: its reason is
  the termination's exactly when it has one (`ReasonExact`, `NullReasonIsAccepted`). The schema's check constraint at
  lines 109-113 rules such a row out.
* The writer of terrain rasters does not look at latitudes: the reader refuses what it finishes exactly when an
  edge lies too far beyond a pole or a number of the transform is not finite (`ReaderTransformExact`,
  `WriteBeyondPole`).
* Without a frozen hash, a resume splices an old partial file onto the payload; the result is right exactly when
  the partial was a prefix (`SpliceExact`, `ForeignPartialIsSpliced`).
* With neither size nor hash frozen, an answer that is cut off and declares no length is taken for the payload; the
  result is right exactly when it has the payload's length (`TruthfulRun`, `UndeclaredTruncationIsAccepted`).
* A rename or copy in the porcelain status that lacks its original path is not always noticed under an empty prefix:
  the next status entry is taken for the path (`TruncatedRenameRejected` has the exact condition,
  `LostOriginalIsAccepted` an input). The prefix that the package tool computes is never empty, and under every other
  prefix the rename is rejected wherever it stands.
* Two different sources can leave the provenance digest unchanged: exactly a file below the data root and the text
  that its normal form spells (`CollisionExact`, `SourcesCollide`).
* `normalized_relative` turns `./.` into `.`, which it rejects when given it; it is idempotent exactly on paths with
  a component that is neither empty nor a single dot (`IdempotentExact`, `DotsAreNotIdempotent`).
* When the package root is the repository's own root, the prefix handed to the porcelain parser is `.`, and the
  parser then rejects every change: it succeeds exactly on a clean tree (`DotRootExact`, `PorcelainRoundTrip`).
* A physical column is refused exactly when its topmost two pressures add up to at most 0.2 hPa, and its top level
  lies inside its layer exactly when its pressure is at least 0.1 hPa (`PhysicalColumnIsSound`,
  `HighColumnIsRefused`, `TopLevelOutsideIsAccepted`).
* The distance of two doubles counts one step too many exactly when one is negative and the other is not
  (`DistanceExact`, `OneStepTwoCodes`).

## Model

| member | source | states |
|---|---|---|
| LifecycleAudit.AuditIsExact | trajecta/tools/run_m4_a4_real_matrix.py:257-551 | the audit returns with `valid` set exactly when the sample key is unique, the direction is known and the tables are a faithful run from event 0: one row for every (particle, instant) the lifecycle implies and no other row, gap-free sample and event numbers, rows at their event, births, closings and final states in place; stated without any counter |
| LifecycleMirror.AuditMirrors | trajecta/tools/run_m4_a4_real_matrix.py:286-324 | the mirror law: the audit accepts a run in one direction exactly when it accepts the run with all instants negated in the other |
| LifecycleMirror.BackwardRunIsAccepted | trajecta/tools/run_m4_a4_real_matrix.py:288-293 | a concrete backward run, from 0 s down to -3600 s, for which the audit sets `valid` |
| LifecycleAudit.ScheduleElapsed | trajecta/tools/run_m4_a4_real_matrix.py:288-293 | the schedule is seven instants ten minutes apart in the run's direction, from event 0 to an hour later |
| RunTables.NotBeforeIsElapsed | trajecta/tools/run_m4_a4_real_matrix.py:299-324 | the two-column comparisons are the order of the run's clock in nanoseconds, in either direction |
| LifecycleAudit.RowsExact | trajecta/tools/run_m4_a4_real_matrix.py:325-383 | under coverage a particle has a row at an instant, and then one row, exactly when the instant is its birth, its termination, or a schedule instant not before the one and not after the other |
| LifecycleAudit.ValidIsFaithful | trajecta/tools/run_m4_a4_real_matrix.py:532-547 | soundness: thirteen of the fourteen zero counters already force the faithful run |
| LifecycleAudit.FaithfulIsValid | trajecta/tools/run_m4_a4_real_matrix.py:532-547 | completeness: every faithful run sets the flag |
| LifecycleAudit.CoverageFromCounters | trajecta/tools/run_m4_a4_real_matrix.py:368-383 | equal row counts, one row per scheduled key, births at sample 0 and closed terminations together leave no room for a duplicate, unexpected or orphan row: the pigeonhole across four counters |
| LifecycleAudit.UnrelatedCounterIsImplied | trajecta/tools/run_m4_a4_real_matrix.py:469-486 | the unrelated-rows counter is zero whenever the other thirteen conjuncts hold |
| LifecycleAudit.AuditRefusals | trajecta/tools/run_m4_a4_real_matrix.py:272-324 | when the audit raises: on a repeated sample key, else without an event 0, else on an unknown direction |
| LifecycleAudit.NumberingExact | trajecta/tools/run_m4_a4_real_matrix.py:384-397 | MIN, MAX and COUNT of one particle's samples agree with 0..n-1 exactly when the sample numbers are the set 0..n-1, each once |
| LifecycleAudit.EventNumbersExact | trajecta/tools/run_m4_a4_real_matrix.py:504-509 | the CASE over MIN, MAX and COUNT of event numbers passes exactly when they are gap-free from 0 and there is an event |
| LifecycleAudit.AdjacentLifts | trajecta/tools/run_m4_a4_real_matrix.py:398-406 | from "no sample's event is at or before its predecessor's" and gap-free samples: the events of any two samples of a particle are strictly ordered |
| LifecycleAudit.EventsAdvanceFromCounters | trajecta/tools/run_m4_a4_real_matrix.py:398-406 | under coverage the nonmonotonic counter gives the order over all pairs for every row of the table, also for rows whose particle is not in the particle table |
| LifecycleAudit.BirthExact | trajecta/tools/run_m4_a4_real_matrix.py:407-416 | the birth counter misses a particle exactly when its sample 0 stands at its birth |
| LifecycleAudit.TerminationExact | trajecta/tools/run_m4_a4_real_matrix.py:417-433 | the three-table left join reports no mismatch exactly when the particle's last row is at the termination, terminated, with the same reason or with none |
| LifecycleAudit.FinalExact | trajecta/tools/run_m4_a4_real_matrix.py:434-452 | a particle without termination is counted exactly when its last row is not alive at the run's end |
| LifecycleAudit.ScheduleEventsExact | trajecta/tools/run_m4_a4_real_matrix.py:335-348 | the missing and duplicate sums are zero exactly when each schedule instant has one event |
| LifecycleAudit.LifetimesExact | trajecta/tools/run_m4_a4_real_matrix.py:299-333 | in either direction of time a covered table has all rows of known particles inside their lifetimes exactly when no termination precedes its particle's birth |
| LifecycleGap.TerminationBeforeBirthIsAccepted | trajecta/tools/run_m4_a4_real_matrix.py:532-547 | a concrete run with one particle terminated before its birth for which the audit sets `valid` |
| LifecycleAudit.OrphanRowsExact | trajecta/tools/run_m4_a4_real_matrix.py:469-486 | a covered table has no row of an unknown particle exactly when every termination is of a known particle |
| LifecycleGap.OrphanRowIsAccepted | trajecta/tools/run_m4_a4_real_matrix.py:532-547 | a concrete run with a row of a particle that the particle table lacks for which the audit sets `valid` |
| LifecycleGap.NullReasonIsAccepted | trajecta/tools/run_m4_a4_real_matrix.py:417-433 | a concrete run whose closing row has no reason, although its termination has one, for which the audit sets `valid` |
| LifecycleAudit.ScheduledRowsShareEvent | trajecta/tools/run_m4_a4_real_matrix.py:335-348 | all rows at one scheduled instant point at the same event |
| LifecycleAudit.SampleClockExact | trajecta/tools/run_m4_a4_real_matrix.py:398-406 | in a faithful run every particle's samples are in clock order exactly when events that share a particle are numbered in clock order |
| LifecycleGap.ShuffledSamplesAreAccepted | trajecta/tools/run_m4_a4_real_matrix.py:532-547 | a concrete run inside all lifetimes whose sample 1 of a particle is ten minutes after its sample 2, for which the audit sets `valid` |
| LifecycleAudit.ReasonExact | trajecta/tools/run_m4_a4_real_matrix.py:417-433 | because SQL's != ignores nulls, the closing row carries the termination's reason exactly when it carries one at all |
| PopulationAudit.AuditIsExact | trajecta/tools/run_m4_a4_real_matrix.py:624-785 | `valid` holds exactly when the initial particles are target-many, every other particle is boundary inflow born strictly later in run direction, birth instants and birth events correspond one to one, and every sample 0 points at its birth's event |
| PopulationAudit.AfterIsElapsed | trajecta/tools/run_m4_a4_real_matrix.py:633-646 | the two-column comparison is the strict order of the run's clock |
| PopulationAudit.TargetIsDomainFill | trajecta/tools/run_m4_a4_real_matrix.py:770-785 | in a faithful population the particles of domain origin are those born at the start, and target-many |
| PopulationAudit.InteriorExact | trajecta/tools/run_m4_a4_real_matrix.py:603-617 | an instant is interior exactly when no whole number of macro steps, forwards or backwards, leads to it from the start |
| PopulationAudit.BirthCountsAgree | trajecta/tools/run_m4_a4_real_matrix.py:698-738 | the two reported counts, distinct birth instants and birth events, are equal, although the code never compares them |
| PopulationAudit.BirthRowExact | trajecta/tools/run_m4_a4_real_matrix.py:740-759 | the double left join counts a particle exactly when its sample 0 is not at its birth or not at the birth event of that instant |
| PopulationAudit.EventCounters | trajecta/tools/run_m4_a4_real_matrix.py:698-730 | the multiplicity and orphan counters are both zero exactly when births and birth events are in one-to-one correspondence |
| PopulationAudit.PartitionCounters | trajecta/tools/run_m4_a4_real_matrix.py:654-684 | the three origin and direction counters are zero exactly when particles split into initial and inflow ones, and the two sums add up to the total |
| PopulationAudit.InteriorBirthsAreEvents | trajecta/tools/run_m4_a4_real_matrix.py:593-621 | the interior-birth gate equals the number of birth events strictly inside a macro step, under SQL's truncating remainder |
| PopulationAudit.PopulationImpliesBirthCounter | trajecta/tools/run_m4_a4_real_matrix.py:407-416 | across audits: a passing population leaves the lifecycle audit's birth counter at zero |
| TileGrid.BuildHeader | trajecta/tools/prepare_gmted2010.py:161-189 | the 128 bytes hold every field at its offset, little-endian, after in-place packing of an array |
| TileGrid.FormatConstants | trajecta/tools/prepare_gmted2010.py:161-189 | the sizes, version and marker of the format in figures, and its magic as text |
| Bytes.LittleEndianAt | trajecta/tools/prepare_gmted2010.py:171-188 | byte i of a little-endian header field is the digit of weight 256 to the i |
| TileGrid.PaddedTile | trajecta/tools/prepare_gmted2010.py:236-264 | the windowed read, the nodata fill and the corner copy give exactly the bytes of that tile |
| TileGrid.Slot | trajecta/tools/prepare_gmted2010.py:234-235 | slot numbers are mixed-radix: row and column are recovered by division and remainder, and every slot is below the tile count |
| TileGrid.WriteTiles | trajecta/tools/prepare_gmted2010.py:220-274 | after the nested loop the payload is the concatenation of all compressed tiles and entry k holds the offset, length and raw size of tile k |
| TileGrid.Assemble | trajecta/tools/prepare_gmted2010.py:286-294 | the file is header, index, payload; it fails exactly when some index field overflows its struct format |
| TileGrid.PrepareGrid | trajecta/tools/prepare_gmted2010.py:137-326 | the run fails exactly when the transform is invalid or a dimension or an index field overflows its format, and otherwise yields a well-formed TGRID file of all tiles |
| TileGridReader.IndexContiguous | trajecta/tools/prepare_gmted2010.py:271-274 | the extents are contiguous, hence disjoint, from the data offset to the end of the payload |
| TileGridReader.ReaderTransformExact | trajecta/crates/trajecta-met/src/auxiliary/gmted2010.rs:584-617 | of the transforms the writer accepts, the reader accepts exactly the finite ones whose edges lie at most half a pixel and a millionth of a degree beyond the poles |
| TileGridReader.WrittenFileOpens | trajecta/crates/trajecta-met/src/auxiliary/gmted2010.rs:710-808 | the runtime reader accepts a file the writer finished exactly when its raster lies between the poles, and then recovers its geometry, index and payload |
| TileGridReader.WriteBeyondPole | trajecta/crates/trajecta-met/src/auxiliary/gmted2010.rs:584-617 | a raster reaching one degree beyond the pole, run through the writer: the writer finishes its file, and the reader refuses that file |
| TileGridReader.EveryPixelReadsBack | trajecta/crates/trajecta-met/src/auxiliary/gmted2010.rs:955-1040 | round trip: the reader returns the raster's value at every pixel, the missing-data report where the raster holds nodata, and an error outside the raster |
| TileGridReader.RasterRoundTrip | trajecta/crates/trajecta-met/src/auxiliary/gmted2010.rs:710-1040 | from raster to file to pixel: a file the writer made for a raster opens exactly when the raster lies between the poles, and reading it then answers every coordinate with the raster's own content |
| TileGridReader.PaddingIsNodata | trajecta/tools/prepare_gmted2010.py:256-264 | every cell of every tile beyond the raster's edge decodes as nodata |
| Grib2.WalkExact | trajecta/tools/era5_hybrid_official_pipeline.py:387-443 | a buffer is accepted by the two loops exactly when it is the concatenation of valid messages, each tiled by valid sections, and the messages read back are those printed |
| Grib2.SectionsSound | trajecta/tools/era5_hybrid_official_pipeline.py:403-433 | every body the section loop accepts is the concatenation of valid sections |
| Grib2.SectionsComplete | trajecta/tools/era5_hybrid_official_pipeline.py:403-433 | every concatenation of valid sections is accepted by the section loop and read back |
| Grib2.WalkSound | trajecta/tools/era5_hybrid_official_pipeline.py:390-434 | acceptance tiles the buffer by messages and each message by its sections |
| Grib2.CoefficientsExact | trajecta/tools/era5_hybrid_official_pipeline.py:387-443 | the extractor succeeds exactly on printed valid messages whose coordinate-bearing product sections carry one numerically common vector of at least four values, and returns that vector's halves |
| Grib2Vectors.ExtractionExact | trajecta/tools/era5_hybrid_official_pipeline.py:387-443 | the extractor returns (a, b) exactly on messages printed from product sections, each a count, a template and the big-endian bytes of two finite arrays of one length, that all agree with the first pair (a, b) as numbers, at least two values on each side |
| Grib2Vectors.CommonPairIsReturned | trajecta/tools/era5_hybrid_official_pipeline.py:387-443 | if every product section with coefficients was printed from one pair of arrays, that pair is returned |
| Grib2Vectors.WrittenReads | trajecta/tools/era5_hybrid_official_pipeline.py:412-432 | a product section printed from two arrays is accepted, and its candidate is that pair |
| Grib2Vectors.SectionIsWritten | trajecta/tools/era5_hybrid_official_pipeline.py:412-432 | every section that is accepted is printed from two finite arrays of one length, or is not a product section |
| Grib2Vectors.FiniteExact | trajecta/tools/era5_hybrid_official_pipeline.py:429-430 | a single is accepted exactly when it is below the infinities, whatever its sign |
| Grib2Vectors.SameValueExact | trajecta/tools/era5_hybrid_official_pipeline.py:439 | two singles count as equal exactly when their numerical values are |
| Grib2Vectors.Markers | trajecta/tools/era5_hybrid_official_pipeline.py:392-401 | messages open with GRIB and close with 7777 |
| Grib2.ChooseExact | trajecta/tools/era5_hybrid_official_pipeline.py:436-443 | the choice among candidates succeeds exactly when all vectors agree numerically (both zeros alike) and have at least four values |
| Grib2.ScanProduct | trajecta/tools/era5_hybrid_official_pipeline.py:412-432 | one Section 4: the error or the grid of the coordinate values at the section's end |
| Grib2.ScanSections | trajecta/tools/era5_hybrid_official_pipeline.py:403-433 | the section loop fails as the section grammar does and otherwise appends the grids of its sections in order |
| Grib2.ScanMessages | trajecta/tools/era5_hybrid_official_pipeline.py:389-434 | the message loop fails as the message grammar does and otherwise collects all grids in file order |
| Grib2.HybridCoefficients | trajecta/tools/era5_hybrid_official_pipeline.py:387-443 | the imperative extractor computes the specified outcome, error for error |
| Download.Workspace.Request | trajecta/tools/fetch_cfsr_pgbl.py:98-214 | one pass of the loop body over the real files equals one step of the protocol, and `existing` stays the length of the partial file |
| Download.Workspace.Download | trajecta/tools/fetch_cfsr_pgbl.py:84-215 | the retry loop over the real files equals the specified run: files, result and number of requests |
| Download.DropKeepsBytes | trajecta/tools/fetch_cfsr_pgbl.py:154-163 | a connection that drops in the body loses no byte: the next loop head holds the old content and everything read, with the lengths the answer declared |
| Download.ProgressFinishes | trajecta/tools/fetch_cfsr_pgbl.py:98-214 | if every answer completes or breaks off after at least one further byte, as many requests as bytes are missing suffice (and one at least), and the finished file is the payload |
| Download.FailedCheckStartsOver | trajecta/tools/fetch_cfsr_pgbl.py:165-209 | a complete body that fails a check is forgotten: the run goes on as one that starts from nothing |
| Download.WrongRangeStartsOver | trajecta/tools/fetch_cfsr_pgbl.py:120-147 | so does a resume answered with a wrong status, a missing range, a wrong start or a wrong length |
| Download.RestartsFromNothing | trajecta/tools/fetch_cfsr_pgbl.py:110-119 | a resume answered with 200 or 416 restarts without the partial file |
| Download.RefusalsSpendRetries | trajecta/tools/fetch_cfsr_pgbl.py:187-214 | 404 ends the run at once; any other repeated refusal spends all requests and keeps the partial file |
| Download.AttemptKeepsMeasure | trajecta/tools/fetch_cfsr_pgbl.py:98-214 | `existing` is the length of the partial file at every loop head, whatever the server answered |
| Download.RunIsSafe | trajecta/tools/fetch_cfsr_pgbl.py:84-215 | over every run against every server: at most `retries` requests; the finished file changes only to content that passed every check given; every exception leaves it untouched; an integrity failure leaves no partial file |
| Download.HonestRun | trajecta/tools/fetch_cfsr_pgbl.py:98-209 | with a server of true bytes and declared true lengths and an initial prefix, the partial file stays a prefix of the payload through drops and resumes, and success means the payload |
| Download.TruthfulRun | trajecta/tools/fetch_cfsr_pgbl.py:98-209 | with a truthful server that may leave lengths undeclared, success means a prefix of the payload, the payload exactly when it is as long, and surely so under a frozen size |
| Download.UndeclaredTruncationIsAccepted | trajecta/tools/fetch_cfsr_pgbl.py:149-186 | a cut-off answer without a length, with nothing frozen, leaves half the payload as the finished file |
| Download.RecoversWithinTwo | trajecta/tools/fetch_cfsr_pgbl.py:98-209 | from any partial file whatever, an error-free server and the frozen size and hash give success within two requests, and within one exactly when nothing has to be restarted |
| Download.SpliceExact | trajecta/tools/fetch_cfsr_pgbl.py:154-186 | without a frozen hash a resume accepts any old partial shorter than the payload: the result is the payload exactly when the partial was a prefix of it |
| Download.ForeignPartialIsSpliced | trajecta/tools/fetch_cfsr_pgbl.py:154-186 | a concrete foreign partial file of one byte that an honest answer completes to a finished file other than the payload, although the frozen size agrees |
| Download.EnsureValidExisting | trajecta/tools/fetch_cfsr_pgbl.py:218-239 | an existing file is kept exactly when it passes every check given, and is deleted otherwise |
| Download.Fetch | trajecta/tools/fetch_cfsr_pgbl.py:268-294 | whatever the candidates answer, the file left behind passes every check or there is none; a valid existing file is not touched; and one candidate that serves the frozen file suffices, whatever the others do |
| ProvenanceDigest.PathNormalizedDigests | trajecta/tools/run_m5_a5_formal.py:63-124 | the imperative digest equals the specified one, error for error: dictionary loops, sorting and line-by-line hashing |
| ProvenanceRelocation.FoldExact | trajecta/tools/run_m5_a5_formal.py:70-98 | a dictionary loop succeeds exactly on resolvable entries with pairwise different exact hashes, and then maps each exact hash to its normalized one |
| ProvenanceRelocation.FoldMoved | trajecta/tools/run_m5_a5_formal.py:70-98 | renaming exact hashes injectively and reordering the entries changes neither success nor any normalized hash |
| ProvenanceRelocation.RelocationInvariant | trajecta/tools/run_m5_a5_formal.py:63-124 | moving the data root, renaming exact hashes injectively with their references, and reordering records, field sets and samples leave both digests unchanged |
| ProvenanceRelocation.DigestsDetermine | trajecta/tools/run_m5_a5_formal.py:100-124 | with an injective hash, two bundles have equal provenance digests exactly when their normalized records and resolved field sets agree as multisets and their sample assignments agree; the canonical digests agree exactly when the database hashes agree too |
| ProvenanceMeaning.DigestsMean | trajecta/tools/run_m5_a5_formal.py:63-124 | with an injective hash, two bundles under two roots have equal provenance digests exactly when they can be matched one by one: records with the same sources up to the root, field sets with the same names and references, samples with the same keys and field sets |
| ProvenanceMeaning.SourcesExact | trajecta/tools/run_m5_a5_formal.py:74-80 | two accepted sources normalize alike exactly when they have one path below their roots, or are one text outside both, or one is a file whose normal form the other spells out |
| ProvenanceMeaning.CollisionExact | trajecta/tools/run_m5_a5_formal.py:74-80 | under one root two accepted sources normalize alike exactly when they are equal, or one is the root and a path and the other "dataset://" and the same path |
| ProvenanceMeaning.SourcesCollide | trajecta/tools/run_m5_a5_formal.py:76-77 | the file /d/a below the root /d/ and the source text dataset://a normalize alike |
| ProvenanceMeaning.RefusedExact | trajecta/tools/run_m5_a5_formal.py:76-79 | a source is refused exactly when it is absolute and not below the root |
| ProvenanceMeaning.DigestsExist | trajecta/tools/run_m5_a5_formal.py:70-115 | there are digests exactly when no source escapes, no exact hash repeats and no reference is null or unknown; a refusal names a reason that applies |
| ProvenanceMeaning.PrefixExact | trajecta/tools/run_m5_a5_formal.py:69 | however many slashes end the root, the prefix ends in one |
| ProvenanceMeaning.RecordsExact | trajecta/tools/run_m5_a5_formal.py:72-82 | two records normalize alike exactly when their other members are equal and their sources agree one by one |
| ProvenanceMeaning.LinesInOrder | trajecta/tools/run_m5_a5_formal.py:103-115 | the hashed lines come in order: hashes as sorted texts, samples by particle and then sample number, none lost or added |
| ProvenanceMeaning.SmallDigests | trajecta/tools/run_m5_a5_formal.py:82-124 | for a bundle of one record, one field set and one sample both hashed texts, word for word |
| ProvenanceRelocation.TextDetermines | trajecta/tools/run_m5_a5_formal.py:100-115 | the hashed text determines its three blocks of lines |
| ProvenanceRelocation.SampleLineUnique | trajecta/tools/run_m5_a5_formal.py:111-115 | a sample line determines particle, sample number and hash |
| PackagePaths.AcceptedIsNormalized | trajecta/tools/m5_a4_package.py:111-117 | every accepted path comes out as plain components joined by single slashes, except that a path whose components are all empty or a single dot comes out as "." |
| PackagePaths.AcceptedExact | trajecta/tools/m5_a4_package.py:111-117 | accepted are exactly the relative paths without backslash and without a ".." component, other than "" and "." |
| PackagePaths.NoiseIsDropped | trajecta/tools/m5_a4_package.py:111-117 | empty and single-dot components between the names are dropped and nothing else: the result is the names in order, joined by slashes |
| PackagePaths.IdempotentExact | trajecta/tools/m5_a4_package.py:111-117 | normalizing an accepted path again returns it exactly when some component of the path is neither empty nor a single dot |
| PackagePaths.DotsAreNotIdempotent | trajecta/tools/m5_a4_package.py:111-117 | "./." is accepted with the result ".", and "." is refused |
| PackagePaths.ParsePorcelain | trajecta/tools/m5_a4_package.py:120-151 | the index-driven loop yields the strictly sorted list of the specified path set, or the same error |
| PackagePaths.OutcomeUnique | trajecta/tools/m5_a4_package.py:151 | that list is the only one the contract allows |
| PackagePaths.PorcelainRoundTrip | trajecta/tools/m5_a4_package.py:120-151 | for any list of valid changes, renames and copies included, and any package root, what git prints parses to the sorted list of exactly the package-relative paths, except that at the repository's own root (prefix ".") any change at all is an error |
| PackagePaths.DotRootExact | trajecta/tools/m5_a4_package.py:189-206 | with the prefix ".", which the caller computes at the repository's own root, parsing succeeds exactly on a status without entries |
| PackagePaths.TruncatedRenameRejected | trajecta/tools/m5_a4_package.py:146-150 | a rename or copy without its original path, anywhere among valid changes, is rejected under every nonempty prefix; under the empty one it is rejected at the end, and otherwise accepted exactly when the next change's status entry can be swallowed as the missing path and what that leaves behind reads as entries, with a status entry listed as a path |
| PackagePaths.LostOriginalIsAccepted | trajecta/tools/m5_a4_package.py:146-150 | under the empty prefix the entries "R  b" and " M a" parse to the list " M a", "b" |
| PackagePaths.StatusEntryRelative | trajecta/tools/m5_a4_package.py:123-132 | a status entry taken for a path lies outside every nonempty prefix, and is a path of its own under the empty one |
| PackagePaths.StripKeepsNormalized | trajecta/tools/m5_a4_package.py:121 | stripping slashes leaves a normalized prefix alone |
| PackagePaths.RelativeOfUnder | trajecta/tools/m5_a4_package.py:123-132 | a normalized path under the prefix is returned without the prefix |
| PackagePaths.BackslashesAreSlashes | trajecta/tools/m5_a4_package.py:124 | writing slashes of a status path as backslashes does not change what it is read as |
| PackagePaths.StripExact | trajecta/tools/m5_a4_package.py:121 | any number of slashes around the root prefix does not count |
| PackagePaths.FaultyEntryRejected | trajecta/tools/m5_a4_package.py:140-151 | after any valid changes the first entry of wrong shape, status, path or place decides the error, whatever follows |
| SourceTree.StreamExact | trajecta/tools/m5_a4_package.py:173-189 | the length-prefixed stream is uniquely decodable: a byte string decodes to a list exactly when it is that list's stream and every length fits eight bytes |
| SourceTree.SourceTreeStream | trajecta/tools/m5_a4_package.py:173-189 | the bytes fed to the hash file by file and chunk by chunk are the stream of the sorted listing's entries, or the same error |
| SourceTree.StreamShowsFiles | trajecta/tools/m5_a4_package.py:173-189 | decoding the hashed bytes lists, for the files of the sorted listing in order, the encoded normalized path and the file's own bytes; the run fails exactly when some path raises an exception, with the first one's |
| SourceTree.StreamIdentifiesTree | trajecta/tools/m5_a4_package.py:169-189 | two trees have equal streams exactly when the files of their sorted listings have the same spelled paths and the same bytes, one by one; the order of a listing does not matter |
| Sorting.StringLeExact | trajecta/tools/m5_a4_package.py:173 | text order is decided by the first difference, and a prefix comes first |
| Bytes.BigEndianAt | trajecta/tools/m5_a4_package.py:183-185 | byte i of an eight-byte length is the digit of weight 256 to the 7 - i |
| DependencyClosure.Closure | trajecta/tools/m5_a4_package.py:339-356 | the worklist ends with the least set that contains the root and is closed under dependencies not only of dev kind, with each exact, sorted, duplicate-free edge list; it fails only at an id without a node that every closed set contains |
| DependencyClosure.DependencyClosureOf | trajecta/tools/m5_a4_package.py:333-361 | the whole function: exactly one root, the least closed set, exact edges, each included package selected once in sort order, and what each failure means |
| DependencyClosure.OnlyProductIsRoot | trajecta/tools/m5_a4_package.py:336-338 | if one package alone is called trajecta-cli, it is the one root |
| DependencyClosure.RootIsOnlyProduct | trajecta/tools/m5_a4_package.py:336-338 | one root comes from one package alone of that name |
| DependencyClosure.LastPackageStays | trajecta/tools/m5_a4_package.py:334 | of several packages with one id the last one is looked up |
| DependencyClosure.PackageOrderExact | trajecta/tools/m5_a4_package.py:357-360 | packages are ordered by name, then version, then source |
| DependencyClosure.ClosureUnique | trajecta/tools/m5_a4_package.py:339-356 | the least closed set is unique, so the traversal order does not matter |
| DependencyClosure.MissingNodeExact | trajecta/tools/m5_a4_package.py:347 | when the traversal fails, no closed set lies inside the node table |
| DependencyClosure.FilterDropsNothing | trajecta/tools/m5_a4_package.py:440-452 | the filter on included packages in the bill of materials keeps every edge |
| TokenSearch.ObservedNames | trajecta/tools/run_m5_a4_product_matrix.py:696-709 | for every division of the file into nonempty chunks the names returned are exactly those whose token occurs in the whole file; an empty token table is an error and an empty file has none |
| TokenSearch.OccursStep | trajecta/tools/run_m5_a4_product_matrix.py:705-708 | a token occurs in what has been read exactly when it occurred before or occurs in carry plus chunk |
| TokenSearch.CarryStep | trajecta/tools/run_m5_a4_product_matrix.py:708 | the carry stays a suffix of what was read, long enough for every token, also when the overlap is zero and the slice is the whole block |
| OrderedDouble.OrderedMonotone | trajecta/tools/run_m4_a3_native_diff.py:253-259 | the code orders all doubles as their values do and identifies exactly the two zeros |
| OrderedDouble.DistanceExact | trajecta/tools/run_m4_a3_native_diff.py:253-259 | the code difference of finite doubles is the number of representable values stepped over, plus one exactly when one is negative and the other is not |
| OrderedDouble.MissingSlot | trajecta/tools/run_m4_a3_native_diff.py:253-259 | no double has the code just below zero's |
| OrderedDouble.OneStepTwoCodes | trajecta/tools/run_m4_a3_native_diff.py:253-259 | from the greatest negative double to zero is one step and a code difference of two |
| OrderedDouble.StepsAreRanks | trajecta/tools/run_m4_a3_native_diff.py:253-259 | the values between two doubles are exactly those of the ranks between their ranks |
| DiffMetrics.NumericMetrics.Update | trajecta/tools/run_m4_a3_native_diff.py:277-304 | one row updates the mutable counters, the three maxima and their keys as specified |
| DiffMetrics.DistancesExact | trajecta/tools/run_m4_a3_native_diff.py:292-293 | without rounding, the absolute distance is the difference of the values, and the relative one times the larger of both magnitudes and 1.0e-300 is that difference |
| DiffMetrics.FoldFindsFirstMaximum | trajecta/tools/run_m4_a3_native_diff.py:277-304 | over any rows, and however differences and quotients round, `max_abs`, `max_rel` and `max_ulps` are the largest distances, and each positive one has the key of the first row attaining it |
| DiffMetrics.FoldCounts | trajecta/tools/run_m4_a3_native_diff.py:277-304 | the four counters are the numbers of rows of their kind |
| DiffMetrics.ZeroDistanceIsZeroMismatch | trajecta/tools/run_m4_a3_native_diff.py:290-304 | zero mismatch count, zero code distance and equality of all compared values say the same; so does zero absolute distance if rounding keeps differences positive |
| DiffMetrics.CompareColumn | trajecta/tools/run_m4_a3_native_diff.py:319-358 | for any key type and order, the metrics of a numeric column are those of the common keys in sorted order, and the keys of one side only are listed in order, each once |
| DiffMetrics.CompareCategory | trajecta/tools/run_m4_a3_native_diff.py:346-347 | the mismatch count of a column that is not numeric is the number of common keys with different values |
| DiffMetrics.WorstKeyIsSmallest | trajecta/tools/run_m4_a3_native_diff.py:331-345 | for each of the three maxima the reported key is the smallest one attaining it |
| CanonicalBundle.Validate | trajecta/tools/validate_m4_a0_contracts.py:43-102 | validation raises nothing exactly on canonical bundles: sorted, duplicate-free, correctly hashed, and with every reference resolved |
| CanonicalBundle.CheckRecords | trajecta/tools/validate_m4_a0_contracts.py:51-67 | the record loop accepts exactly sorted, duplicate-free, correctly hashed records with canonical parameters, and then holds them by hash |
| CanonicalBundle.CheckFieldSets | trajecta/tools/validate_m4_a0_contracts.py:69-93 | the field-set loop accepts exactly sorted, duplicate-free, correctly hashed field sets whose non-null slots name records of their own field |
| CanonicalBundle.FieldTexts | trajecta/tools/validate_m4_a0_contracts.py:73-79 | the field that each of the five slots must point at, by name |
| CanonicalBundle.KeyOrderExact | trajecta/tools/validate_m4_a0_contracts.py:95-96 | sample keys ascend by particle, then by sample number |
| CanonicalBundle.ParameterOrderExact | trajecta/tools/validate_m4_a0_contracts.py:62-63 | parameters are ordered by name, then by value |
| CanonicalBundle.CanonicalUnique | trajecta/tools/validate_m4_a0_contracts.py:43-102 | two accepted bundles with the same records, field sets and sample assignments are identical lists |
| CanonicalBundle.SamplesResolve | trajecta/tools/validate_m4_a0_contracts.py:80-102 | in an accepted bundle every sample resolves through one field set, and each non-null slot to exactly one record of that slot's field |
| Anchors.AnchorsAreShortestCover | trajecta/tools/fetch_trajecta_data.py:173-176 | for bounds in either order the anchors are the one shortest run of consecutive multiples of the interval covering [min - interval, max + interval] |
| Anchors.CodedAnchorsExact | trajecta/tools/fetch_trajecta_data.py:173-176 | for instants and intervals below 2^53 the ceiling of the correctly rounded float quotient gives the exact lattice |
| Anchors.GroupedAnchors | trajecta/tools/fetch_trajecta_data.py:179-184 | the dictionary loop and the final sort give the days in order, each once, with exactly its clock times |
| Anchors.GroupsConcatenate | trajecta/tools/fetch_trajecta_data.py:179-184 | concatenating the groups in order returns the date and clock of every instant, in order: nothing is lost, added or moved |
| Anchors.AnchorGroupsConcatenate | trajecta/tools/fetch_trajecta_data.py:173-184 | grouping the anchors of any span and concatenating the groups returns the anchors |
| Anchors.StampReads | trajecta/tools/fetch_trajecta_data.py:182-183 | date and clock determine a whole-minute instant |
| Anchors.ClockExact | trajecta/tools/fetch_trajecta_data.py:183 | the clock time is five characters, hours below 24 and minutes below 60, and spells the time of day without its seconds |
| Anchors.LabelExact | trajecta/tools/fetch_trajecta_data.py:182-183 | an instant is labelled with the day it lies in |
| LayerGeometry.Layers | trajecta/tools/derive_m6_twpice_column.py:74-113 | the in-place loops fill the specified heights and masses, and the error exit is taken exactly when some mass or height step is not positive |
| LayerGeometry.PhysicalColumnIsSound | trajecta/tools/derive_m6_twpice_column.py:74-113 | on a physical column the error exit is taken exactly when the topmost two pressures add up to at most 0.2 hPa; masses add up to (surface - top interface) * 100 / g, heights rise from at or above the terrain, and all levels lie inside their layers exactly when the top one is at least 0.1 hPa |
| LayerGeometry.LevelInsideLayer | trajecta/tools/derive_m6_twpice_column.py:81-88 | a level lies inside its layer exactly when it is not the top one or its pressure is at least 0.1 hPa, and a layer has mass exactly when it is not the top one or the topmost two pressures add up to more than 0.2 hPa |
| LayerGeometry.TopLevelOutsideIsAccepted | trajecta/tools/derive_m6_twpice_column.py:74-113 | a column with pressures 1.0 and 0.05 hPa is accepted although its top level lies outside its layer |
| LayerGeometry.HighColumnIsRefused | trajecta/tools/derive_m6_twpice_column.py:111-112 | a physical column with pressures 0.1 and 0.05 hPa is refused |
| LayerGeometry.MassTelescopes | trajecta/tools/derive_m6_twpice_column.py:88 | for every column the masses of the lowest n layers add up to the pressure drop across them |
| LayerGeometry.InterfacesExact | trajecta/tools/derive_m6_twpice_column.py:81-87 | the lowest interface is the surface, inner ones are midpoints of their levels, and the top one mirrors the one below it unless cut at 0.1 hPa |
| LayerGeometry.MassExact | trajecta/tools/derive_m6_twpice_column.py:88 | mass times gravity is the pressure drop in pascals |
| LayerGeometry.VirtualTemperatureExact | trajecta/tools/derive_m6_twpice_column.py:89-93 | dry air at the virtual temperature has the gas-constant product of the moist mixture at the temperature |
| LayerGeometry.BarometricHeight | trajecta/tools/derive_m6_twpice_column.py:94-110 | in dry air of one temperature the height of a level is the terrain plus R t / g times the logarithm of surface pressure over its pressure |
| LayerGeometry.ThicknessExact | trajecta/tools/derive_m6_twpice_column.py:101-110 | each thickness uses the mean of its two levels' virtual temperatures |

## Left out

- LifecycleAudit.AuditIsExact: speaks of one run, so `run_id` is not modelled; nulls are modelled only in the state's reason, where the comparison depends on them; the reported counters that do not enter the flag are not modelled.
- PopulationAudit.AuditIsExact: assumes the keys of the schema, including the unique (particle, sample) that the lifecycle audit's index enforces.
- TileGrid.PrepareGrid: zlib and the real value of an eight-byte double are parameters; the checks on driver, band, data type, reference system and rotation, and temporary files, fsync, rename and removal, are not modelled.
- TileGrid.WriteTiles: the payload file and the index list are sequences in local variables, not a file handle.
- TileGridReader.WrittenFileOpens: both sides' sums and products of transform numbers are taken over the reals, without rounding; the tile cache and the overflow branches of checked 64-bit arithmetic are not modelled; the decompressor returns whole tiles.
- Grib2.HybridCoefficients: a single is its 32 bits, compared numerically; the conversion to Python floats is exact and not modelled.
- Download.Workspace.Download: sleeping, proxies, headers other than length and range, and local file errors (a failed open, write, hash or rename) are not modelled; the frozen hash is compared as lower-case text; a body is any list of chunks with any ending.
- Download.Fetch: URL templates, argument parsing and messages are not modelled.
- ProvenanceDigest.PathNormalizedDigests: canonical JSON and SHA-256 are one function per kind of value; resolution of symbolic links in the data root is outside the model; particle and sample numbers are natural numbers.
- ProvenanceRelocation.RelocationInvariant: starts from a bundle whose digests exist, with POSIX roots and pairwise different sample keys; equal sample keys would leave the order of two lines to the input.
- PackagePaths.ParsePorcelain: paths are text, so `os.fsdecode` is the identity.
- PackagePaths.TruncatedRenameRejected: speaks of one lost path; a status code is two ASCII characters, neither of them a slash or a backslash.
- SourceTree.SourceTreeStream: file system and UTF-8 encoder are parameters, and a file does not change between its size and its content being read; the rest of the identity record (head commit, dirty paths) is not modelled.
- DependencyClosure.DependencyClosureOf: the metadata's node list is a map by id, so a repeated node id is not modelled; packages with equal sort keys come in an order Python leaves to set iteration.
- TokenSearch.ObservedNames: the file is the concatenation of its chunks; chunk size and the table of families are not fixed.
- DiffMetrics.NumericMetrics.Update: differences and quotients round by an arbitrary function of a real, which also stands for overflow to infinity.
- DiffMetrics.CompareColumn: one column at a time, so a row is not a tuple of columns; cutting the lists of one-sided keys to twenty for the report is not modelled.
- CanonicalBundle.Validate: states which bundles are accepted, not which of several faults is reported; JSON type checks are not modelled.
- Anchors.CodedAnchorsExact: says nothing of instants or intervals of 2^53 seconds and more, far beyond the last year that the grouping can format; a negative interval is not modelled.
- Anchors.GroupsConcatenate: the calendar is a parameter, a label per day number that sorts as days do, which four-digit years give.
- LayerGeometry.Layers: real arithmetic and an abstract increasing logarithm; non-positive pressures and non-finite values, for which numpy warns and goes on, are outside the model.
- The Rust simulator, its scheduler and its job catalogue are not part of this model; only the raster reader is.
- Subprocess orchestration, environment set-up, timing, plots and reports: plumbing around the modelled functions.
- Collection of Windows and Linux runtime libraries: the shape of the dependency worklist over other tools' text.
- The other download scripts and the earlier matrix runners: variants of the modelled ones.
- The static contract checks on fixed files: finite comparisons with frozen constants.
