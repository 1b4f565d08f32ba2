# XiSearch core: candidate list, isotope-cluster detector, run configuration

This project models three sequential parts of the XiSearch cross-link search engine in Dafny and proves properties of them:

- **The candidate list** (`SequenceList`). It holds the protein sequences a search runs over and does the following:
  - digests them and applies variable modifications, keeping the raw and modified peptide counters;
  - numbers all peptides into a dense index;
  - appends decoy sequences in bulk;
  - reads FASTA texts record by record, with a per-file decoy policy and a chain of record filters;
  - reads a "list of FASTA files".
- **The isotope-cluster detector** (`IsotopPattern.AnnotateIsotops`). It makes one pass over the m/z-ordered peaks of a spectrum. For each charge it groups peaks spaced by the C13 mass difference over that charge into isotope clusters. It annotates every clustered peak in place and adds the clusters to the spectrum.
- **The modification and label registry** of `AbstractRunConfig`, with its small configuration rules:
  - fixed, variable and known modifications, and the labelled modifications derived from them;
  - the per-residue mappings;
  - the general and FASTA modification caps;
  - the fragment tolerances and the low-resolution flag;
  - the search-thread count and the reading of boolean settings.

Files:

- `wrappers.dfy`: `Option`, which stands in for Java's nullable references.
- `text.dfy`: `String.trim`, `toLowerCase` on ASCII letters, `Integer.toString`, and `Integer.parseInt` on ASCII digits.
- `sequences.dfy`: sequences, peptides, the decoy policy, the peptide iteration order and the record filter chain.
- `fasta.dfy`: a record-level specification of what a FASTA text and a FASTA list yield.
- `sequence_list.dfy`: the class `SequenceList`, whose methods are proved against those specifications.
- `isotope_pattern.dfy`:
  - the detector as a pure specification (`Detect`), with lemmas about the clusters it finds and the annotations it leaves;
  - the classes `Spectra` and `IsotopPattern`, whose in-place `AnnotateIsotops` is proved equal to `Detect`.
- `run_config.dfy`: the class `AbstractRunConfig` and the pure rules beside it.

Code that is not part of this model is passed in as function-typed parameters:

- `Sequence.digest`, `modify`, `reverse`, `shuffle`, `swapWithPredecesor` and `reverseAvare`;
- `FastaFilter.getSequences`;
- `Spectra.getPeakAtDistance` and `ToleranceUnit.minDiff`;
- `File.exists` and the contents of files;
- `Util.C13_MASS_DIFFERENCE`, a positive constant;
- the residues registered before a configuration is made;
- `Runtime.availableProcessors`.

The peak lookup is assumed to find nothing farther away than the m/z span of the spectrum plus its tolerance. This is what makes the detector's `do … while` loops end.

Where the code departs from what its comments or its documentation suggest, the model follows the code:

- A label derives copies of every modification on its base, earlier derived ones included. So labels compound, and adding a label twice derives its copies twice.
- A peak that lies in several clusters keeps the charge of the last one. Nothing makes the first cluster win.
- The limit `lastPeak` on the peaks of a cluster is computed but never used. Clusters grow until the lookup fails.
- `setFragmentTolerance` sets low-resolution mode to true in both branches of its test, as long as the flag is unset.
- For the last record of a FASTA text, the unfiltered sequence is added once for every sequence the filter returns. It is not the filter's output that is added.
- The `target:` prefix of a FASTA list line is cut at six characters, so the path keeps the prefix's `:`.

## Model

| member | source | states |
|---|---|---|
| Text.Trim | src/rappsilber/ms/sequence/SequenceList.java:604 | the trimmed line is an infix of the line; everything cut off at either end is a character up to U+0020; the result neither starts nor ends with one |
| Text.TrimOfTrimmed | src/rappsilber/ms/sequence/SequenceList.java:604 | a string without leading or trailing blanks is its own trim |
| Text.TrimKeepsVisibleHead | src/rappsilber/ms/sequence/SequenceList.java:609-611 | trimming a string that starts with a visible character keeps that character in front |
| Text.TrimIdempotent | src/rappsilber/config/AbstractRunConfig.java:947 | trimming a trimmed string changes nothing |
| Text.ToLower | src/rappsilber/ms/sequence/SequenceList.java:606-609 | the result has the input's length and no upper-case ASCII letter left; every other character is kept, and each result character is its input character up to case |
| Text.ToLowerIdempotent | src/rappsilber/ms/sequence/SequenceList.java:606-609 | lower-casing a lower-cased string changes nothing |
| Text.LowerPrefixIgnoresCase | src/rappsilber/ms/sequence/SequenceList.java:606-609 | for a prefix without upper-case letters, `toLowerCase().startsWith(p)` holds exactly when the text starts with `p` in any mix of cases |
| Text.ParseInt | src/rappsilber/config/AbstractRunConfig.java:912 | a text parses exactly when it has an optional sign and at least one ASCII digit, and its value lies in the 32-bit range; the result is the digits' decimal value, negated after a `-`, and lies in that range |
| Text.ParseDecimal | src/rappsilber/config/AbstractRunConfig.java:912 | parsing the decimal form of any 32-bit value gives back that value |
| Sequences.PeptideOrderNonNull | src/rappsilber/ms/sequence/SequenceList.java:337-385 | dropping the nulls from the peptide iteration leaves every peptide of every sequence, in sequence order and then peptide order |
| Sequences.PeptideOrderLength | src/rappsilber/ms/sequence/SequenceList.java:357-370 | the iteration yields one element per peptide plus one null per sequence without peptides |
| Sequences.AppliedAt | src/rappsilber/ms/sequence/SequenceList.java:307-316 | replacing every sequence keeps one per input, in place: the k-th result is what the step makes of the k-th sequence |
| Sequences.AddFilterAppends | src/rappsilber/ms/sequence/SequenceList.java:688-701 | adding a filter puts it at the end of the effective chain |
| Sequences.AddFiltersInOrder | src/rappsilber/ms/sequence/SequenceList.java:688-701 | filters added one by one to the default form a chain in insertion order; from the second one on, that chain is a MultiFilter of them |
| Fasta.StripStop | src/rappsilber/ms/sequence/SequenceList.java:642-643 | exactly one trailing `*` is removed, and nothing else changes |
| Fasta.RecordOfBlock | src/rappsilber/ms/sequence/SequenceList.java:640-663 | a header line followed by residue lines is one record whose header is the line after `>` and whose residues are those lines joined |
| Fasta.RecordsAppend | src/rappsilber/ms/sequence/SequenceList.java:640-663 | text that continues with a header adds its own records after the earlier ones |
| Fasta.WithCompanionsLength | src/rappsilber/ms/sequence/SequenceList.java:649-656 | under the two GENERATE policies every added sequence is followed by one decoy, and otherwise by none |
| Fasta.ParsedOpenNext | src/rappsilber/ms/sequence/SequenceList.java:640-660 | a header after a record with residues emits that record's sequences and opens a new, empty record |
| Fasta.ParsedExtend | src/rappsilber/ms/sequence/SequenceList.java:661-662 | a residue line extends the open record and emits nothing |
| Fasta.ParsedEmptyRecord | src/rappsilber/ms/sequence/SequenceList.java:640-643 | a header while the open record has no residues ends the parse with an error, keeping what was emitted before |
| Fasta.ParsedResiduesFirst | src/rappsilber/ms/sequence/SequenceList.java:661-662 | residues before the first header end the parse with an error and nothing emitted |
| Fasta.ParsedEnd | src/rappsilber/ms/sequence/SequenceList.java:666-684 | at the end of the text the open record is emitted only when it has residues, as the last record |
| Fasta.PolicyAndPath | src/rappsilber/ms/sequence/SequenceList.java:606-612 | a line selects ISDECOY exactly when it starts with `decoy:` in any case |
| Fasta.PolicyAndPathCases | src/rappsilber/ms/sequence/SequenceList.java:603-613 | a `decoy:` prefix in any case gives ISDECOY and the trimmed rest after six characters; otherwise a `target:` prefix gives ISTARGET and the same cut; a line with neither prefix gives ISTARGET and the line itself as its path |
| Fasta.ListLineMeaning | src/rappsilber/ms/sequence/SequenceList.java:602-620 | a line is skipped exactly when it is blank or a `#` comment; it selects ISDECOY exactly when it starts with `decoy:` in any case; a path that does not exist is looked up once more under the list's parent directory; a loaded path always exists, a missing one never does, and without a parent a line loads exactly when its own path exists |
| Fasta.ListLineLookup | src/rappsilber/ms/sequence/SequenceList.java:612-620 | a path that exists is loaded as named; otherwise it is missing without a parent directory, and with one both the load and the missing report name the path under that directory |
| Fasta.TargetPrefixKeepsColon | src/rappsilber/ms/sequence/SequenceList.java:609-611 | a `target:` line selects ISTARGET, and the path it names starts with `:` |
| Fasta.ListEntries | src/rappsilber/ms/sequence/SequenceList.java:600-622 | a list names no more files than it has lines, and stops at a missing path exactly when one of its lines names one |
| Fasta.ListEntriesAllLoaded | src/rappsilber/ms/sequence/SequenceList.java:600-622 | a list without blank lines, comments or missing paths loads one file per line, in order |
| Fasta.ListLoadFollowsEntries | src/rappsilber/ms/sequence/SequenceList.java:599-623 | when every file parses, loading a list appends the sequences of exactly the files it names, in order, and stops at a missing path exactly when the list names one |
| SequenceLists.ModificationStatusesCount | src/rappsilber/ms/sequence/SequenceList.java:325-327 | the reporting variant emits one status per full thousand sequences |
| SequenceLists.SequenceList.constructor | src/rappsilber/ms/sequence/SequenceList.java:49-62 | a new list is empty, with zero counters, no index, no decoys, no filter and the ISTARGET policy |
| SequenceLists.SequenceList.Digest | src/rappsilber/ms/sequence/SequenceList.java:254-263 | every sequence is digested in place; the result is the sum of the per-sequence counts, and it replaces the peptide count; the status reports it |
| SequenceLists.SequenceList.ApplyVariableModifications | src/rappsilber/ms/sequence/SequenceList.java:307-316 | every sequence is modified in place; the modified count grows by the sum of the per-sequence counts and is never reset; the peptide count then grows by the new modified count |
| SequenceLists.SequenceList.ApplyVariableModificationsReporting | src/rappsilber/ms/sequence/SequenceList.java:318-331 | as ApplyVariableModifications, and the statuses are exactly those due after every thousandth sequence, each with the counts at that point |
| SequenceLists.SequenceList.BuildIndex | src/rappsilber/ms/sequence/SequenceList.java:276-297 | the new index array holds exactly the non-null peptides in iteration order; every index points back at its peptide; without repeated peptides every index is its own position |
| SequenceLists.SequenceList.NumberPeptides | src/rappsilber/ms/sequence/SequenceList.java:280-291 | the loop skips nulls and numbers the peptides it meets with the count so far |
| SequenceLists.SequenceList.Number | src/rappsilber/ms/sequence/SequenceList.java:285-288 | a peptide gets the next index and is appended, and earlier ones keep pointing at themselves |
| SequenceLists.SequenceList.GetAllPeptideIDs | src/rappsilber/ms/sequence/SequenceList.java:410-414 | the index is built on first use and later returned unchanged |
| SequenceLists.SequenceList.IncludeDecoys | src/rappsilber/ms/sequence/SequenceList.java:500-509 | the list becomes the old list followed by one decoy per sequence, derived from it in order and flagged decoy; the decoys are returned |
| SequenceLists.SequenceList.IncludeReverse | src/rappsilber/ms/sequence/SequenceList.java:500-509 | the old list followed by the reversed sequences, flagged decoy, which are returned |
| SequenceLists.SequenceList.IncludeReverseAndSwap | src/rappsilber/ms/sequence/SequenceList.java:516-526 | the old list followed by one decoy per sequence, in order: `swapWithPredecesor` applied to the given residues of `reverse(s)`, flagged decoy; the decoys are returned |
| SequenceLists.SequenceList.IncludeReverseKRAware | src/rappsilber/ms/sequence/SequenceList.java:533-542 | the old list followed by one decoy per sequence, in order: `reverseAvare(s, [K, R])`, flagged decoy; the decoys are returned |
| SequenceLists.SequenceList.IncludeShuffled | src/rappsilber/ms/sequence/SequenceList.java:549-558 | the old list followed by the shuffled sequences, flagged decoy, which are returned |
| SequenceLists.SequenceList.IncludeShuffledKeeping | src/rappsilber/ms/sequence/SequenceList.java:565-574 | the old list followed by one decoy per sequence, in order: `shuffle(s, keep)` with the given residues, flagged decoy; the decoys are returned |
| SequenceLists.SequenceList.AddWithCompanions | src/rappsilber/ms/sequence/SequenceList.java:649-656 | appends each sequence followed by the decoy its policy generates |
| SequenceLists.SequenceList.EmitRecord | src/rappsilber/ms/sequence/SequenceList.java:642-656 | a record closed by a header appends what the filter makes of its sequence, each sequence with its decoy |
| SequenceLists.SequenceList.EmitLastRecord | src/rappsilber/ms/sequence/SequenceList.java:668-683 | the last record appends its unfiltered sequence once per filter output, each with its decoy |
| SequenceLists.SequenceList.CloseRecord | src/rappsilber/ms/sequence/SequenceList.java:641-660 | closing a record keeps everything appended equal to what the lines read so far parse into |
| SequenceLists.SequenceList.ReadLine | src/rappsilber/ms/sequence/SequenceList.java:635-663 | one line keeps the appended sequences equal to the parse of the lines so far, or ends with the parse's error |
| SequenceLists.SequenceList.ReadLines | src/rappsilber/ms/sequence/SequenceList.java:634-665 | the reading loop appends what the lines parse into, up to an error |
| SequenceLists.SequenceList.AddFasta | src/rappsilber/ms/sequence/SequenceList.java:630-685 | the list grows by exactly what the FASTA text yields, record by record, and the error is the one that ends the text; hasDecoy becomes true after a non-ISTARGET policy and never reverts |
| SequenceLists.SequenceList.AddFastaListLine | src/rappsilber/ms/sequence/SequenceList.java:602-620 | one list line appends the sequences of the file it names, read with its policy, or stops the load |
| SequenceLists.SequenceList.AddFastaList | src/rappsilber/ms/sequence/SequenceList.java:599-623 | the list grows by the sequences of every file the list names, in order, up to the first missing path or bad file; hasDecoy records any decoy policy |
| SequenceLists.SequenceList.LoadListLines | src/rappsilber/ms/sequence/SequenceList.java:601-622 | given what each line asks for, the list grows by the files loaded in order up to the first line that stops the load, and that stop is returned |
| SequenceLists.SequenceList.AddFilter | src/rappsilber/ms/sequence/SequenceList.java:688-701 | the first filter replaces the default; the second wraps the old and the new one in a MultiFilter; later ones are appended to it |
| IsotopePatterns.Trunc | src/rappsilber/ms/spectra/annotation/IsotopPattern.java:47 | `(int)` truncates toward zero: it keeps the sign and drops less than 1 in magnitude |
| IsotopePatterns.ApplyKeepsPeak | src/rappsilber/ms/spectra/annotation/IsotopPattern.java:82-125 | clusters never move a peak or change its m/z or intensity |
| IsotopePatterns.ApplyIsotope | src/rappsilber/ms/spectra/annotation/IsotopPattern.java:84-110 | a peak is an isotope afterwards exactly when it was one or lies in one of the clusters, so the annotation is only ever added |
| IsotopePatterns.ApplyMono | src/rappsilber/ms/spectra/annotation/IsotopPattern.java:93-118 | a peak is monoisotopic afterwards exactly when it was one or is a cluster's monoisotopic peak |
| IsotopePatterns.ApplyCharge | src/rappsilber/ms/spectra/annotation/IsotopPattern.java:85-116 | a peak's charge is that of the last cluster holding it, so later charges overwrite earlier ones; outside every cluster it is unchanged |
| IsotopePatterns.ForwardMarking | src/rappsilber/ms/spectra/annotation/IsotopPattern.java:82-93 | marking the forward run and then the anchor has the same effect on the peaks as the forward cluster |
| IsotopePatterns.BackwardMarking | src/rappsilber/ms/spectra/annotation/IsotopPattern.java:108-118 | marking the backward run and its farthest peak has the same effect on the peaks as the extended cluster |
| IsotopePatterns.FromAnchorShape | src/rappsilber/ms/spectra/annotation/IsotopPattern.java:71-120 | a cluster built from an anchor has at least two peaks, all in the spectrum, starts with its monoisotopic peak and holds the anchor |
| IsotopePatterns.TryChargeFinds | src/rappsilber/ms/spectra/annotation/IsotopPattern.java:70-127 | one charge adds at most two clusters, both of that charge, built from the anchor, and its marks are exactly those clusters' effect |
| IsotopePatterns.TryChargesFind | src/rappsilber/ms/spectra/annotation/IsotopPattern.java:70-128 | charges 1 to z add at most 2z clusters, each of a charge in 1..z and built from the anchor |
| IsotopePatterns.VisitFinds | src/rappsilber/ms/spectra/annotation/IsotopPattern.java:55-60 | a visited peak anchors clusters only if it was no isotope and lies within 1 m/z of the next peak |
| IsotopePatterns.ScanFinds | src/rappsilber/ms/spectra/annotation/IsotopPattern.java:55-176 | the peaks visited so far only add clusters, at most two per charge and anchor, each anchored among them |
| IsotopePatterns.DetectFinds | src/rappsilber/ms/spectra/annotation/IsotopPattern.java:43-178 | the pass only adds clusters: each has a charge in 1..maxCharge and an anchor that is not the last peak, was no isotope before the pass and lies within 1 m/z of the next peak; the peaks change exactly as those clusters, applied in order, make them |
| IsotopePatterns.DetectWithoutCharges | src/rappsilber/ms/spectra/annotation/IsotopPattern.java:47-70 | without a charge to try (a precursor charge below 1) the pass changes nothing |
| IsotopePatterns.DetectedClusterShape | src/rappsilber/ms/spectra/annotation/IsotopPattern.java:82-125 | every new cluster has at least two peaks, all peaks of the spectrum and annotated isotope, led by its monoisotopic peak, which is annotated monoisotopic |
| IsotopePatterns.DetectedPeak | src/rappsilber/ms/spectra/annotation/IsotopPattern.java:82-125 | after the pass a peak's m/z and intensity are unchanged, its annotations are those it had plus those of the new clusters holding it, and its charge is that of the last such cluster |
| IsotopePatterns.IsotopPattern.constructor | src/rappsilber/ms/spectra/annotation/IsotopPattern.java:32-34 | the ratio bound is 8, so a first isotope peak must be less than 8 times the anchor's intensity, and the peak-to-peak bound is Double.MAX_VALUE |
| IsotopePatterns.IsotopPattern.SetMaxMono2FirstPeakRatio | src/rappsilber/ms/spectra/annotation/IsotopPattern.java:197-206 | sets the ratio the getter reads |
| IsotopePatterns.IsotopPattern.SetMaxPeakToPeakRation | src/rappsilber/ms/spectra/annotation/IsotopPattern.java:211-220 | sets the bound the getter reads |
| IsotopePatterns.IsotopPattern.ExtendForward | src/rappsilber/ms/spectra/annotation/IsotopPattern.java:81-88 | the loop collects exactly the peaks at 1, 2, … spacings up to the first failed lookup, and marks each one an isotope of the charge |
| IsotopePatterns.IsotopPattern.ExtendBackward | src/rappsilber/ms/spectra/annotation/IsotopPattern.java:107-114 | the loop prepends exactly the peaks at −1, −2, … spacings, keeping ascending order, marks them, and ends on the farthest one |
| IsotopePatterns.IsotopPattern.MarkForwardCluster | src/rappsilber/ms/spectra/annotation/IsotopPattern.java:81-93 | the forward members are the anchor and its run; the anchor is marked isotope and monoisotopic |
| IsotopePatterns.IsotopPattern.AddBackwardCluster | src/rappsilber/ms/spectra/annotation/IsotopPattern.java:101-127 | with a peak one spacing below, the extended copy is added with the backward run in front and its farthest peak monoisotopic; otherwise nothing changes |
| IsotopePatterns.IsotopPattern.AddClusters | src/rappsilber/ms/spectra/annotation/IsotopPattern.java:81-127 | once the gate has passed, the peaks and clusters become what one charge of the specification makes of them |
| IsotopePatterns.IsotopPattern.TryOneCharge | src/rappsilber/ms/spectra/annotation/IsotopPattern.java:71-128 | one iteration of the charge loop does to the peaks and clusters exactly what one charge of the specification does |
| IsotopePatterns.IsotopPattern.AnnotateIsotops | src/rappsilber/ms/spectra/annotation/IsotopPattern.java:43-178 | the in-place pass leaves the peaks and clusters that the specification gives for charges up to min(MaxCharge, (int) precursor charge) |
| IsotopePatterns.IsotopPattern.Anotate | src/rappsilber/ms/spectra/annotation/IsotopPattern.java:180-182 | anotate is AnnotateIsotops with the truncated precursor charge as the largest charge |
| RunConfigs.GroupingSpec | src/rappsilber/config/AbstractRunConfig.java:308-319 | a base is a key exactly when some element has it; its list is never empty and holds exactly that base's elements in input order; every element is in its own base's list |
| RunConfigs.GroupingLookup | src/rappsilber/config/AbstractRunConfig.java:352-353 | a lookup in the grouping gives the base's elements, or null when there are none |
| RunConfigs.LabelDoublesBase | src/rappsilber/config/AbstractRunConfig.java:284-304 | after a label, its base's list is the old list followed by a relabelled copy of each entry, so it doubles; other bases are unchanged |
| RunConfigs.RegistryLookup | src/rappsilber/config/AbstractRunConfig.java:205-211 | the registry holds an id exactly when some registered residue has it, and then the last residue with it |
| RunConfigs.SettersKeepTracking | src/rappsilber/config/AbstractRunConfig.java:911-931 | both setters keep a FASTA cap that was never set on its own equal to the general cap |
| RunConfigs.GeneralKeepsSetFasta | src/rappsilber/config/AbstractRunConfig.java:911-921 | a general setter sets the general cap, never changes the FASTA flag, and leaves a FASTA cap that was set on its own unchanged |
| RunConfigs.FastaSticks | src/rappsilber/config/AbstractRunConfig.java:911-931 | after a FASTA setter, no sequence of general settings changes the FASTA cap |
| RunConfigs.CalculateSearchThreads | src/rappsilber/config/AbstractRunConfig.java:933-942 | a positive request is taken as it is; zero or a negative request gives the processor count plus the request, but never fewer than one thread |
| RunConfigs.GetBooleanMissing | src/rappsilber/config/AbstractRunConfig.java:945-946 | a null value reads as the default |
| RunConfigs.GetBooleanIgnoresBlanks | src/rappsilber/config/AbstractRunConfig.java:947 | a value and its trimmed form read the same |
| RunConfigs.GetBooleanIsCaseSensitive | src/rappsilber/config/AbstractRunConfig.java:949-953 | the words are compared exactly: `True` reads as false even with a true default |
| RunConfigs.GetBooleanPaddedYes | src/rappsilber/config/AbstractRunConfig.java:947-950 | a padded ` yes ` reads as true even with a false default |
| RunConfigs.GetBooleanIgnoresDefault | src/rappsilber/config/AbstractRunConfig.java:944-954 | a present value decides on its own, whatever the default |
| RunConfigs.AbstractRunConfig.constructor | src/rappsilber/config/AbstractRunConfig.java:165-173 | no modifications or labels; caps of 3 and 20, with FASTA caps equal to them and not set; the registered residues are in the registry; no tolerances; the low-resolution flag is unset |
| RunConfigs.AbstractRunConfig.RegisterAll | src/rappsilber/config/AbstractRunConfig.java:205-210 | every registered residue is put under its sequence id, and a later one replaces an earlier one |
| RunConfigs.AbstractRunConfig.GenerateMappings | src/rappsilber/config/AbstractRunConfig.java:308-319 | the mapping is the grouping of the modifications by base residue |
| RunConfigs.AbstractRunConfig.GenerateLabelMappings | src/rappsilber/config/AbstractRunConfig.java:321-332 | the mapping is the grouping of the labels by base residue |
| RunConfigs.AbstractRunConfig.GroupByBase | src/rappsilber/config/AbstractRunConfig.java:309-318 | the loop appends each element to its base's list, creating the list when it is missing, which builds the grouping |
| RunConfigs.AbstractRunConfig.GetFixedModifications | src/rappsilber/config/AbstractRunConfig.java:352-354 | a residue has fixed modifications exactly when one is on it; the list returned holds exactly those, in order, and is never empty |
| RunConfigs.AbstractRunConfig.GetVariableModifications | src/rappsilber/config/AbstractRunConfig.java:385-387 | as GetFixedModifications, for the variable modifications |
| RunConfigs.AbstractRunConfig.GetKnownModifications | src/rappsilber/config/AbstractRunConfig.java:363-365 | as GetFixedModifications, for the known modifications |
| RunConfigs.AbstractRunConfig.AppendLabelledCopies | src/rappsilber/config/AbstractRunConfig.java:265-267 | one derived copy per label: id with the label's suffix, mass plus the label's difference, same base |
| RunConfigs.AbstractRunConfig.AppendRelabelled | src/rappsilber/config/AbstractRunConfig.java:292-298 | one relabelled copy of each modification, in order |
| RunConfigs.AbstractRunConfig.RelabelBase | src/rappsilber/config/AbstractRunConfig.java:291-298 | the list followed by a relabelled copy of each of its modifications on the label's base |
| RunConfigs.AbstractRunConfig.WithLabels | src/rappsilber/config/AbstractRunConfig.java:261-267 | the new modification, then one copy per label registered on its base |
| RunConfigs.AbstractRunConfig.AddAminoAcid | src/rappsilber/config/AbstractRunConfig.java:515-517 | registers a residue under its sequence id, replacing any earlier entry |
| RunConfigs.AbstractRunConfig.AddFixedModification | src/rappsilber/config/AbstractRunConfig.java:260-270 | the fixed list grows by the modification and one labelled copy per label on its base; the mappings stay the grouping of their lists; the modification is registered; the other lists are unchanged |
| RunConfigs.AbstractRunConfig.AddVariableModification | src/rappsilber/config/AbstractRunConfig.java:272-282 | as AddFixedModification, on the variable list |
| RunConfigs.AbstractRunConfig.AddKnownModification | src/rappsilber/config/AbstractRunConfig.java:519-529 | as AddFixedModification, on the known list |
| RunConfigs.AbstractRunConfig.AddLabel | src/rappsilber/config/AbstractRunConfig.java:284-304 | the label is appended; the variable and fixed lists each grow by a relabelled copy of every entry on the label's base, derived entries included; known modifications are untouched; the mappings are rebuilt; the label is registered |
| RunConfigs.AbstractRunConfig.AppendLabel | src/rappsilber/config/AbstractRunConfig.java:286-288 | the label is appended and the label mapping rebuilt from the new list |
| RunConfigs.AbstractRunConfig.Remap | src/rappsilber/config/AbstractRunConfig.java:301-302 | the new lists are stored with their mappings rebuilt |
| RunConfigs.AbstractRunConfig.SetMaxModificationPerPeptide | src/rappsilber/config/AbstractRunConfig.java:917-921 | a parsed value becomes the general cap, and the FASTA cap follows it unless set on its own; text that does not parse changes nothing |
| RunConfigs.AbstractRunConfig.SetMaxModifiedPeptidesPerPeptide | src/rappsilber/config/AbstractRunConfig.java:911-915 | as SetMaxModificationPerPeptide, on the modified-variants cap |
| RunConfigs.AbstractRunConfig.SetMaxModificationPerFASTAPeptide | src/rappsilber/config/AbstractRunConfig.java:923-926 | a parsed value becomes the FASTA cap and marks it set; the general cap is unchanged |
| RunConfigs.AbstractRunConfig.SetMaxModifiedPeptidesPerFASTAPeptide | src/rappsilber/config/AbstractRunConfig.java:928-931 | as SetMaxModificationPerFASTAPeptide, on the modified-variants cap |
| RunConfigs.AbstractRunConfig.SetFragmentTolerance | src/rappsilber/config/AbstractRunConfig.java:647-657 | stores the tolerance; an unset low-resolution flag becomes true whatever the tolerance; a null tolerance with the flag unset fails |
| RunConfigs.AbstractRunConfig.SetFragmentToleranceCandidate | src/rappsilber/config/AbstractRunConfig.java:405-420 | stores the candidate; low-resolution mode is then on exactly when the effective candidate, which falls back to the fragment tolerance, is in da and above 0.06; with neither tolerance it fails |
| RunConfigs.AbstractRunConfig.IsLowResolution | src/rappsilber/config/AbstractRunConfig.java:1061-1065 | false while the flag is unset, and otherwise the flag's value |

## Left out

- File I/O is not modelled: opening files, gzip detection, `BufferedReader.ready()` and the dispatch of `addFasta(File)` on the file name. A FASTA text is its sequence of lines. `addFastaList` reads each named file with `addFasta(BufferedReader)` semantics, so a list that names another list is not followed as a list.
- Text.ParseInt: accepts ASCII digits only. Java's `Integer.parseInt` also accepts the other Unicode decimal digits that `Character.digit` knows, so such a value is rejected here but read by Java.
- Text.ToLower: lowers ASCII letters only. Java's `toLowerCase` also lowers other letters, but none of them lower-cases to a letter of `decoy:` or `target:`, so the prefix tests of a FASTA list are unaffected.
- Fasta.ListLineMeaning: a path counts as present when `File.exists` holds for it. A directory or an unreadable file exists but fails to open with `FileNotFoundException`; the model reads it as a FASTA text instead.
- SequenceLists.SequenceList.EmitLastRecord, SequenceLists.SequenceList.Digest and SequenceLists.SequenceList.ApplyVariableModifications (with its reporting variant): list entries are independent values. Java adds the one `Sequence` object of the last record once per filter output, and `digest` and `modify` then change that shared object in place once per occurrence, each call seeing the previous one's result; the model applies the step to each copy's original value, so it agrees only when the step gives the same result on an already processed sequence.
- Java `int` arithmetic is not modelled. The peptide counters and the cumulative modified count are unbounded, so their wrap-around is not captured.
- Each decoy policy is applied only through the function it is given. The model does not capture randomness in `shuffle`, or what `reverse`, `shuffle`, `digest`, `modify` and `getSequences` do to a sequence.
- `MultiFilter.addFilter` mutates a filter that may be shared. The model treats filters as values, so that aliasing is not captured.
- What the `Sequence` constructor does with the residue string and the configuration is not modelled. A new sequence has the record's residues, its header and its decoy flag, and no peptides.
- Progress reporting through the status interface is modelled as out-parameters, a status string for `digest` and a sequence of them for `applyVariableModifications`.
- `digest` takes an optional mass limit of `Double.MAX_VALUE - 1`. Only the peptide counts are modelled, so the limit and the cross-linker list have no counterpart.
- `buildIndex`: `BuildIndex` states that every index is its own position only when no peptide object occurs twice. A repeated object keeps its last index.
- Peaks: m/z and intensity are `real`. NaN, infinities and rounding are not modelled.
- Cluster offsets: the lookup is asked at exactly k times the spacing. Java accumulates the offset in a `double`.
- An intensity gate with a zero anchor intensity follows the IEEE results: the quotient is infinite or not a number (`RatioBelow`).
- `Util.C13_MASS_DIFFERENCE` is a constructor parameter of `IsotopPattern`, because `Util.java` is not part of this model.
- The isotope clusters of a spectrum are a `SortedLinkedList`. The model keeps them in insertion order, so the sorted order of the collection is not captured.
- The tolerance field `m_Tolerance` of `IsotopPattern` is never read. The bound `m_MaxPeakToPeakRation` is only stored and read back.
- The overloads `anotate(s, peptide)` and `anotate(s, peptide1, peptide2)` only call `anotate(s)`, and are not modelled separately.
- `HashMap<AminoAcid, …>` keys: residues are identified by their sequence id. The `equals` and `hashCode` of `AminoAcid` are not part of this model.
- `AbstractRunConfig` is modelled only in the parts named here. `evaluateConfigLine`, the loss, score and cross-linker registries, the stored objects and the other getters and setters are left out.
- The `setMax*Per*Peptide` setters are not modelled for a null argument, which makes them throw before any change. A text that does not parse is modelled as a failure that changes nothing, standing for the `NumberFormatException`.
- `ToleranceUnit` is modelled only as the value and unit name that the low-resolution rule reads. Its parsing and its `minDiff` are parameters.
- `HasDecoy` only reads the flag. That the flag is monotone is stated by `AddFasta` and `AddFastaList`.
- `FragmentToleranceCandidate` only reads the fields. Its fallback to the fragment tolerance is stated by `SetFragmentToleranceCandidate`.
- The getters `GetMaxMono2FirstPeakRatio` and `GetMaxPeakToPeakRation` only read their fields.
- The `Spectra` class holds only the parts of a spectrum that the detector uses.
