/**
 * SequenceList: the list of protein sequences a search runs over, with the peptide index,
 * digestion and modification counters, decoy generation, FASTA loading and the record filter.
 */
module SequenceLists {
  import opened Wrappers
  import opened Text
  import opened Sequences
  import opened Fasta

  /** The peptides of `ps` as a set: the objects buildIndex may change. */
  function PeptideSet(ps: seq<Peptide>): set<Peptide> {
    set k | 0 <= k < |ps| :: ps[k]
  }

  /** The status line digest reports. */
  function DigestStatus(count: int): string {
    "Digest: Peptides: " + Decimal(count)
  }

  /** The status line the configured applyVariableModifications reports. */
  function ModificationStatus(modified: int, total: int): string {
    "Variable modification: Peptides: " + Decimal(modified) + " total:" + Decimal(total)
  }

  /**
   * The status line due once the `n`-th sequence is modified: one after every thousandth, with
   * the modified count and that count plus the (not yet updated) peptide count.
   */
  function StatusDue(n: nat, modified: int, peptides: int): seq<string> {
    if n % 1000 == 0 then [ModificationStatus(modified, peptides + modified)] else []
  }

  /**
   * The status lines the configured applyVariableModifications reports over `ss`, starting from
   * the counters `modified0` and `peptides0`: one after every thousandth sequence, giving the
   * modified count so far and that count plus the (not yet updated) peptide count.
   */
  function ModificationStatuses(ss: seq<Sequence>, modification: Sequence -> Counted, modified0: int, peptides0: int): seq<string> {
    if ss == [] then []
    else
      var m := modified0 + SumCounts(ss, modification);
      ModificationStatuses(ss[..|ss| - 1], modification, modified0, peptides0)
      + StatusDue(|ss|, m, peptides0)
  }

  /** One status line per full thousand sequences. */
  lemma {:induction false} ModificationStatusesCount(ss: seq<Sequence>, modification: Sequence -> Counted, modified0: int, peptides0: int)
    ensures |ModificationStatuses(ss, modification, modified0, peptides0)| == |ss| / 1000
  {
    if ss != [] {
      ModificationStatusesCount(ss[..|ss| - 1], modification, modified0, peptides0);
    }
  }

  /** `cur` is `ss` with the first `i` sequences replaced by what `f` makes of them. */
  ghost predicate AppliedUpTo(cur: seq<Sequence>, ss: seq<Sequence>, i: nat, f: Sequence -> Counted) {
    && i <= |ss| == |cur|
    && (forall k | 0 <= k < i :: cur[k] == f(ss[k]).sequence)
    && (forall k | i <= k < |ss| :: cur[k] == ss[k])
  }

  /** Replacing the next sequence moves the boundary by one and adds its count. */
  lemma AppliedStep(cur: seq<Sequence>, ss: seq<Sequence>, i: nat, f: Sequence -> Counted)
    requires AppliedUpTo(cur, ss, i, f) && i < |ss|
    ensures cur[i] == ss[i] && AppliedUpTo(cur[i := f(ss[i]).sequence], ss, i + 1, f)
    ensures SumCounts(ss[..i + 1], f) == SumCounts(ss[..i], f) + f(ss[i]).count
  {
    assert ss[..i + 1][..i] == ss[..i];
  }

  /** With every sequence replaced, `cur` is the image of `ss`. */
  lemma AppliedDone(cur: seq<Sequence>, ss: seq<Sequence>, f: Sequence -> Counted)
    requires AppliedUpTo(cur, ss, |ss|, f)
    ensures cur == Applied(ss, f) && ss[..|ss|] == ss
  {
    AppliedLength(ss, f);
    forall k | 0 <= k < |ss|
      ensures cur[k] == Applied(ss, f)[k]
    {
      AppliedAt(ss, f, k);
    }
  }

  /** One more sequence adds its count, and a status line when it completes a thousand. */
  lemma StatusesStep(ss: seq<Sequence>, n: nat, modification: Sequence -> Counted, modified0: int, peptides0: int)
    requires n < |ss|
    ensures SumCounts(ss[..n + 1], modification) == SumCounts(ss[..n], modification) + modification(ss[n]).count
    ensures ModificationStatuses(ss[..n + 1], modification, modified0, peptides0)
      == ModificationStatuses(ss[..n], modification, modified0, peptides0)
      + StatusDue(n + 1, modified0 + SumCounts(ss[..n + 1], modification), peptides0)
  {
    var t := ss[..n + 1];
    assert t[..|t| - 1] == ss[..n] && t[|t| - 1] == ss[n];
    assert SumCounts(t, modification) == SumCounts(ss[..n], modification) + modification(ss[n]).count;
  }

  /**
   * The state of the reporting loop after `i` sequences: those are replaced, their counts added
   * to `modified0`, and the status lines due so far reported.
   */
  ghost predicate ReportedUpTo(cur: seq<Sequence>, ss: seq<Sequence>, i: nat, f: Sequence -> Counted,
                               modified0: int, modified: int, peptides0: int, statuses: seq<string>) {
    && AppliedUpTo(cur, ss, i, f)
    && modified == modified0 + SumCounts(ss[..i], f)
    && statuses == ModificationStatuses(ss[..i], f, modified0, peptides0)
  }

  /** One more sequence of the reporting loop: replaced, counted, and reported when it is due. */
  lemma ReportedStep(cur: seq<Sequence>, ss: seq<Sequence>, i: nat, f: Sequence -> Counted,
                     modified0: int, modified: int, peptides0: int, statuses: seq<string>)
    requires ReportedUpTo(cur, ss, i, f, modified0, modified, peptides0, statuses) && i < |ss|
    ensures cur[i] == ss[i]
    ensures var c := f(cur[i]);
      ReportedUpTo(cur[i := c.sequence], ss, i + 1, f, modified0, modified + c.count, peptides0,
                   statuses + StatusDue(i + 1, modified + c.count, peptides0))
  {
    AppliedStep(cur, ss, i, f);
    StatusesStep(ss, i, f, modified0, peptides0);
  }

  /** After the last sequence: all are replaced, all counts added and every due status reported. */
  lemma ReportedDone(cur: seq<Sequence>, ss: seq<Sequence>, i: nat, f: Sequence -> Counted,
                     modified0: int, modified: int, peptides0: int, statuses: seq<string>)
    requires ReportedUpTo(cur, ss, i, f, modified0, modified, peptides0, statuses) && i >= |cur|
    ensures cur == Applied(ss, f)
    ensures modified == modified0 + SumCounts(ss, f)
    ensures statuses == ModificationStatuses(ss, f, modified0, peptides0)
  {
    AppliedDone(cur, ss, f);
  }

  /** Reversal followed by swapping each of `aas` with its predecessor (Sequence.swapWithPredecesor). */
  function ReverseAndSwap(reverse: Sequence -> Sequence, swap: (Sequence, set<AminoAcid>) -> Sequence,
                          aas: set<AminoAcid>): Sequence -> Sequence {
    s => swap(reverse(s), aas)
  }

  /** Sequence.reverseAvare with K and R as the residues that keep their place. */
  function ReverseKRAware(reverseAware: (Sequence, seq<AminoAcid>) -> Sequence): Sequence -> Sequence {
    s => reverseAware(s, [AminoAcid("K"), AminoAcid("R")])
  }

  /** Sequence.shuffle(nonShuffledAAs) with a fixed set of residues left in place. */
  function ShuffleKeeping(shuffle: (Sequence, set<AminoAcid>) -> Sequence, keep: set<AminoAcid>): Sequence -> Sequence {
    s => shuffle(s, keep)
  }

  class SequenceList {
    var sequences: seq<Sequence>
    var countPeptides: int
    var countModifiedPeptides: int
    var allPeptides: array?<Peptide>
    var hasDecoys: bool
    var filter: FastaFilter
    var decoyTreatment: DecoyGeneration

    constructor ()
      ensures sequences == [] && countPeptides == 0 && countModifiedPeptides == 0 && allPeptides == null
      ensures !hasDecoys && filter == NoFilter && decoyTreatment == IsTarget
    {
      sequences := [];
      countPeptides := 0;
      countModifiedPeptides := 0;
      allPeptides := null;
      hasDecoys := false;
      filter := NoFilter;
      decoyTreatment := IsTarget;
    }

    /** Digests every sequence and records the total number of peptides. */
    method Digest(digest: Sequence -> Counted) returns (count: nat, status: string)
      modifies this`sequences, this`countPeptides
      ensures sequences == Applied(old(sequences), digest)
      ensures count == SumCounts(old(sequences), digest) && countPeptides == count
      ensures status == DigestStatus(count)
    {
      ghost var ss := sequences;
      count := 0;
      var i := 0;
      while i < |sequences|
        invariant AppliedUpTo(sequences, ss, i, digest)
        invariant count == SumCounts(ss[..i], digest)
      {
        AppliedStep(sequences, ss, i, digest);
        var c := digest(sequences[i]);
        sequences := sequences[i := c.sequence];
        count := count + c.count;
        i := i + 1;
      }
      AppliedDone(sequences, ss, digest);
      countPeptides := count;
      status := DigestStatus(count);
    }

    /** Applies the variable modifications to every sequence; returns the cumulative modified count. */
    method ApplyVariableModifications(modification: Sequence -> Counted) returns (modified: int)
      modifies this`sequences, this`countModifiedPeptides, this`countPeptides
      ensures sequences == Applied(old(sequences), modification)
      ensures countModifiedPeptides == old(countModifiedPeptides) + SumCounts(old(sequences), modification)
      ensures countPeptides == old(countPeptides) + countModifiedPeptides
      ensures modified == countModifiedPeptides
    {
      ghost var ss := sequences;
      var i := 0;
      while i < |sequences|
        invariant AppliedUpTo(sequences, ss, i, modification)
        invariant countModifiedPeptides == old(countModifiedPeptides) + SumCounts(ss[..i], modification)
        invariant countPeptides == old(countPeptides)
      {
        AppliedStep(sequences, ss, i, modification);
        var c := modification(sequences[i]);
        sequences := sequences[i := c.sequence];
        countModifiedPeptides := countModifiedPeptides + c.count;
        i := i + 1;
      }
      AppliedDone(sequences, ss, modification);
      countPeptides := countPeptides + countModifiedPeptides;
      modified := countModifiedPeptides;
    }

    /** As ApplyVariableModifications, also reporting progress after every thousandth sequence. */
    method ApplyVariableModificationsReporting(modification: Sequence -> Counted) returns (modified: int, statuses: seq<string>)
      modifies this`sequences, this`countModifiedPeptides, this`countPeptides
      ensures sequences == Applied(old(sequences), modification)
      ensures countModifiedPeptides == old(countModifiedPeptides) + SumCounts(old(sequences), modification)
      ensures countPeptides == old(countPeptides) + countModifiedPeptides
      ensures modified == countModifiedPeptides
      ensures statuses == ModificationStatuses(old(sequences), modification, old(countModifiedPeptides), old(countPeptides))
    {
      ghost var ss := sequences;
      ghost var modified0 := countModifiedPeptides;
      ghost var peptides0 := countPeptides;
      statuses := [];
      var mod := 0;
      while mod < |sequences|
        invariant ReportedUpTo(sequences, ss, mod, modification, modified0, countModifiedPeptides, peptides0, statuses)
        invariant countPeptides == peptides0
      {
        ReportedStep(sequences, ss, mod, modification, modified0, countModifiedPeptides, peptides0, statuses);
        var c := modification(sequences[mod]);
        sequences := sequences[mod := c.sequence];
        countModifiedPeptides := countModifiedPeptides + c.count;
        mod := mod + 1;
        statuses := statuses + StatusDue(mod, countModifiedPeptides, countPeptides);
      }
      ReportedDone(sequences, ss, mod, modification, modified0, countModifiedPeptides, peptides0, statuses);
      countPeptides := countPeptides + countModifiedPeptides;
      modified := countModifiedPeptides;
    }

    /**
     * Numbers the peptides in iteration order, skipping the nulls the iterator reports for
     * sequences without peptides, and keeps them in an array in that order.
     */
    method BuildIndex()
      modifies this`allPeptides, PeptideSet(AllPeptides(sequences))
      ensures allPeptides != null && fresh(allPeptides)
      ensures allPeptides[..] == AllPeptides(sequences)
      ensures IndexesPointBack(allPeptides[..])
      ensures Distinct(allPeptides[..]) ==> IndexedInOrder(allPeptides[..])
    {
      var order := PeptideOrder(sequences);
      PeptideOrderNonNull(sequences);
      var all := NumberPeptides(order);
      allPeptides := ArrayOf(all);
    }

    /**
     * The loop of buildIndex: walks the iteration, skips its nulls and numbers every peptide met
     * with the count so far; returns the peptides met, in order.
     */
    static method NumberPeptides(order: seq<Peptide?>) returns (all: seq<Peptide>)
      modifies PeptideSet(NonNull(order))
      ensures all == NonNull(order)
      ensures IndexesPointBack(all)
      ensures Distinct(all) ==> IndexedInOrder(all)
    {
      ghost var ap := NonNull(order);
      all := [];
      var i := 0;
      while i < |order|
        invariant 0 <= i <= |order|
        invariant all == NonNull(order[..i])
        invariant IndexesPointBack(all)
        invariant Distinct(ap) ==> IndexedInOrder(all)
      {
        var p := order[i];
        NonNullStep(order, i);
        if p != null {
          ghost var next := NonNull(order[..i + 1]);
          assert next == all + [p];
          NonNullPrefix(order, i + 1);
          assert ap[..|next|] == next;
          assert ap[|all|] == next[|all|] == p;
          if Distinct(ap) {
            DistinctNotBefore(ap, |all|);
          }
          all := Number(all, p);
        }
        i := i + 1;
      }
      assert order[..i] == order;
    }

    /** Gives `p` the next index, |all|, and appends it. */
    static method Number(all: seq<Peptide>, p: Peptide) returns (grown: seq<Peptide>)
      requires IndexesPointBack(all)
      modifies p
      ensures grown == all + [p] && p.index == |all|
      ensures IndexesPointBack(grown)
      ensures old(IndexedInOrder(all)) && p !in all ==> IndexedInOrder(grown)
    {
      label before:
      p.index := |all|;
      grown := all + [p];
      forall k | 0 <= k < |grown|
        ensures 0 <= grown[k].index < |grown| && grown[grown[k].index] == grown[k]
      {
        if grown[k] != p {
          assert grown[k] == all[k] && all[k].index == old@before(all[k].index);
        }
      }
    }

    /** A fresh array holding `ps` in order. */
    static method ArrayOf(ps: seq<Peptide>) returns (a: array<Peptide>)
      ensures fresh(a) && a[..] == ps
    {
      a := new Peptide[|ps|](k requires 0 <= k < |ps| => ps[k]);
    }

    /** The peptide array, built on first use. */
    method GetAllPeptideIDs() returns (r: array<Peptide>)
      modifies this`allPeptides, PeptideSet(AllPeptides(sequences))
      ensures r == allPeptides
      ensures old(allPeptides) != null ==> r == old(allPeptides) && unchanged(PeptideSet(AllPeptides(sequences)))
      ensures old(allPeptides) == null ==> fresh(r) && r[..] == AllPeptides(sequences)
    {
      if allPeptides == null {
        BuildIndex();
      }
      r := allPeptides;
    }

    /** Appends one decoy per sequence, derived by `derive` and flagged as decoy; returns the decoys. */
    method IncludeDecoys(derive: Sequence -> Sequence) returns (decoys: seq<Sequence>)
      modifies this`sequences
      ensures decoys == DecoysOf(old(sequences), derive)
      ensures sequences == old(sequences) + decoys
    {
      decoys := [];
      var i := 0;
      while i < |sequences|
        invariant 0 <= i <= |sequences|
        invariant |decoys| == i && forall k | 0 <= k < i :: decoys[k] == derive(sequences[k]).(decoy := true)
      {
        var ds := derive(sequences[i]);
        ds := ds.(decoy := true);
        decoys := decoys + [ds];
        i := i + 1;
      }
      sequences := sequences + decoys;
    }

    /** includeReverse: a reversed decoy for every sequence. */
    method IncludeReverse(reverse: Sequence -> Sequence) returns (decoys: seq<Sequence>)
      modifies this`sequences
      ensures decoys == DecoysOf(old(sequences), reverse)
      ensures sequences == old(sequences) + decoys
    {
      decoys := IncludeDecoys(reverse);
    }

    /** includeReverseAndSwap: reversed, then each of `aas` swapped with its predecessor. */
    method IncludeReverseAndSwap(reverse: Sequence -> Sequence, swap: (Sequence, set<AminoAcid>) -> Sequence,
                                 aas: set<AminoAcid>) returns (decoys: seq<Sequence>)
      modifies this`sequences
      ensures decoys == DecoysOf(old(sequences), ReverseAndSwap(reverse, swap, aas))
      ensures sequences == old(sequences) + decoys
    {
      decoys := IncludeDecoys(ReverseAndSwap(reverse, swap, aas));
    }

    /** includeReverseKRAvera: reversed with K and R kept in place. */
    method IncludeReverseKRAware(reverseAware: (Sequence, seq<AminoAcid>) -> Sequence) returns (decoys: seq<Sequence>)
      modifies this`sequences
      ensures decoys == DecoysOf(old(sequences), ReverseKRAware(reverseAware))
      ensures sequences == old(sequences) + decoys
    {
      decoys := IncludeDecoys(ReverseKRAware(reverseAware));
    }

    /** includeShuffled(): a shuffled decoy for every sequence. */
    method IncludeShuffled(shuffle: Sequence -> Sequence) returns (decoys: seq<Sequence>)
      modifies this`sequences
      ensures decoys == DecoysOf(old(sequences), shuffle)
      ensures sequences == old(sequences) + decoys
    {
      decoys := IncludeDecoys(shuffle);
    }

    /** includeShuffled(nonShuffledAAs): shuffled with the residues of `keep` left in place. */
    method IncludeShuffledKeeping(shuffle: (Sequence, set<AminoAcid>) -> Sequence, keep: set<AminoAcid>)
      returns (decoys: seq<Sequence>)
      modifies this`sequences
      ensures decoys == DecoysOf(old(sequences), ShuffleKeeping(shuffle, keep))
      ensures sequences == old(sequences) + decoys
    {
      decoys := IncludeDecoys(ShuffleKeeping(shuffle, keep));
    }

    /** Appends each of `items`, each followed by the decoy the policy of `ctx` generates for it. */
    method AddWithCompanions(items: seq<Sequence>, ctx: FastaContext)
      modifies this`sequences
      ensures sequences == old(sequences) + WithCompanions(items, ctx)
    {
      ghost var base := sequences;
      var j := 0;
      while j < |items|
        invariant 0 <= j <= |items|
        invariant sequences == base + WithCompanions(items[..j], ctx)
      {
        var a := items[j];
        ghost var before := sequences;
        sequences := sequences + [a];
        if ctx.decoy == GenerateReversedDecoy {
          sequences := sequences + [ctx.reverse(a)];
        } else if ctx.decoy == GenerateRandomizedDecoy {
          sequences := sequences + [ctx.shuffle(a)];
        }
        assert sequences == before + ([a] + Companion(a, ctx));
        CompanionsStep(base, items, j, ctx);
        j := j + 1;
      }
      assert items[..j] == items;
    }

    /** A record closed by the next header: what the filter makes of its sequence, each with its decoy. */
    method EmitRecord(r: FastaRecord, ctx: FastaContext)
      modifies this`sequences
      ensures sequences == old(sequences) + RecordSequences(r, ctx)
    {
      var s := NewSequence(r, ctx.decoy);
      var toAdd := ctx.getSequences(ctx.filter, s);
      AddWithCompanions(toAdd, ctx);
    }

    /** The record at the end of the text: the unfiltered sequence once per filter output, each with its decoy. */
    method EmitLastRecord(r: FastaRecord, ctx: FastaContext)
      modifies this`sequences
      ensures sequences == old(sequences) + LastRecordSequences(r, ctx)
    {
      var s := NewSequence(r, ctx.decoy);
      var toAdd := ctx.getSequences(ctx.filter, s);
      AddWithCompanions(Repeat(s, |toAdd|), ctx);
    }

    /**
     * A header line after a record with residues: the record's sequences are appended, and the
     * lines read so far, the new header among them, are parsed into what has been appended.
     */
    method CloseRecord(ghost base: seq<Sequence>, ghost c: seq<string>, b: string, header: string,
                       ghost added: seq<Sequence>, line: string, ctx: FastaContext)
      returns (ghost added': seq<Sequence>)
      requires ParsedPrefix(c, Some(b), header, added, ctx) && b != [] && IsHeader(line)
      requires sequences == base + added
      modifies this`sequences
      ensures added' == added + RecordSequences(FastaRecord(header, b), ctx)
      ensures sequences == base + added'
      ensures ParsedPrefix(c + [line], Some([]), line[1..], added', ctx)
    {
      EmitRecord(FastaRecord(header, b), ctx);
      AppendAssoc(base, added, RecordSequences(FastaRecord(header, b), ctx));
      ParsedOpenNext(c, b, header, added, line, ctx);
      added' := added + RecordSequences(FastaRecord(header, b), ctx);
    }

    /**
     * One line of addFasta's loop: a blank line is passed over, a header closes the open record
     * and opens the next, any other line extends the open record; a header after a record
     * without residues, or residues before the first header, end the read with an error.
     */
    method ReadLine(ghost base: seq<Sequence>, lines: seq<string>, i: nat, ghost c: seq<string>,
                    open: Option<string>, header: string, ghost added: seq<Sequence>, ctx: FastaContext)
      returns (stop: Option<FastaError>, ghost c': seq<string>, open': Option<string>, header': string,
               ghost added': seq<Sequence>)
      requires i < |lines| && c == Content(lines[..i])
      requires ParsedPrefix(c, open, header, added, ctx) && sequences == base + added
      modifies this`sequences
      ensures sequences == base + added'
      ensures stop.Some? ==> ParseFasta(lines, ctx) == FastaOutcome(added', stop)
      ensures stop.None? ==> c' == Content(lines[..i + 1]) && ParsedPrefix(c', open', header', added', ctx)
    {
      var line := Trim(lines[i]);
      ContentSnoc(lines, i);
      stop, c', open', header', added' := None, c, open, header, added;
      if line != [] {
        assert Meaningful(lines[i]) == [line];
        assert Content(lines[..i + 1]) == c + [line];
        c' := c + [line];
        if line[0] == '>' {
          if open.Some? {
            var b := open.value;
            if b == [] {
              ParsedEmptyRecord(lines, i, header, added, ctx);
              return Some(EmptyRecord), c, open, header, added;
            }
            added' := CloseRecord(base, c, b, header, added, line, ctx);
          } else {
            ParsedOpenFirst(line, ctx);
          }
          header' := line[1..];
          open' := Some([]);
        } else {
          if open.None? {
            ParsedResiduesFirst(lines, i, ctx);
            return Some(ResiduesBeforeHeader), c, open, header, added;
          }
          ParsedExtend(c, open.value, header, added, line, ctx);
          open' := Some(open.value + line);
        }
      } else {
        assert Meaningful(lines[i]) == [];
        assert Content(lines[..i + 1]) == c + [];
        assert c + [] == c;
      }
    }

    /**
     * The reading loop of addFasta: every line in turn, up to the first that ends the read with
     * an error; without one, the lines parse into what was appended and the record still open.
     */
    method ReadLines(lines: seq<string>, ctx: FastaContext)
      returns (stop: Option<FastaError>, open: Option<string>, header: string, ghost added: seq<Sequence>)
      modifies this`sequences
      ensures sequences == old(sequences) + added
      ensures stop.Some? ==> ParseFasta(lines, ctx) == FastaOutcome(added, stop)
      ensures stop.None? ==> ParsedPrefix(Content(lines), open, header, added, ctx)
    {
      stop, open, header, added := None, None, [], [];
      ghost var c: seq<string> := [];
      var i := 0;
      while i < |lines|
        invariant 0 <= i <= |lines|
        invariant c == Content(lines[..i])
        invariant ParsedPrefix(c, open, header, added, ctx)
        invariant sequences == old(sequences) + added && stop.None?
      {
        stop, c, open, header, added := ReadLine(old(sequences), lines, i, c, open, header, added, ctx);
        if stop.Some? {
          return;
        }
        i := i + 1;
        assert c == Content(lines[..i]);
      }
      assert lines[..i] == lines;
    }

    /** addFasta(BufferedReader, decoy): reads the lines of a FASTA text into the list. */
    method AddFasta(lines: seq<string>, decoy: DecoyGeneration,
                    getSequences: (FastaFilter, Sequence) -> seq<Sequence>,
                    reverse: Sequence -> Sequence, shuffle: Sequence -> Sequence)
      returns (error: Option<FastaError>)
      modifies this`sequences, this`hasDecoys
      ensures hasDecoys == (old(hasDecoys) || decoy != IsTarget)
      ensures var o := ParseFasta(lines, FastaContext(decoy, filter, getSequences, reverse, shuffle));
        sequences == old(sequences) + o.added && error == o.error
    {
      hasDecoys := hasDecoys || decoy != IsTarget;
      var ctx := FastaContext(decoy, filter, getSequences, reverse, shuffle);
      var open, header;
      ghost var added;
      error, open, header, added := ReadLines(lines, ctx);
      if error.Some? {
        return;
      }
      ParsedEnd(lines, open, header, added, ctx);
      if open.Some? && open.value != [] {
        EmitLastRecord(FastaRecord(header, open.value), ctx);
        AppendAssoc(old(sequences), added, LastRecordSequences(FastaRecord(header, open.value), ctx));
      } else {
        assert added + [] == added;
      }
    }

    /** One line of a list: nothing, a missing path, or a FASTA text read with the line's policy. */
    method AddFastaListLine(m: ListLine, contents: string -> seq<string>,
                            getSequences: (FastaFilter, Sequence) -> seq<Sequence>,
                            reverse: Sequence -> Sequence, shuffle: Sequence -> Sequence)
      returns (stop: Option<ListStop>)
      modifies this`sequences, this`hasDecoys
      ensures var st := LineStep(m, Loader(contents, FastaContext(IsTarget, filter, getSequences, reverse, shuffle)));
        && sequences == old(sequences) + st.added
        && hasDecoys == (old(hasDecoys) || st.decoys)
        && stop == st.stop
    {
      match m {
        case Skip =>
          stop := None;
        case Missing(p) =>
          stop := Some(MissingFile(p));
        case Load(e) =>
          var err := AddFasta(contents(e.path), e.decoy, getSequences, reverse, shuffle);
          assert FastaContext(IsTarget, filter, getSequences, reverse, shuffle).(decoy := e.decoy)
              == FastaContext(e.decoy, filter, getSequences, reverse, shuffle);
          stop := if err.Some? then Some(BadFasta(e.path, err.value)) else None;
      }
    }

    /**
     * addFastaList: reads each file a list names, in order, with the policy its line selects;
     * `contents` gives the lines of a file.
     */
    method AddFastaList(lines: seq<string>, parent: Option<string>, fs: FileSystem, contents: string -> seq<string>,
                        getSequences: (FastaFilter, Sequence) -> seq<Sequence>,
                        reverse: Sequence -> Sequence, shuffle: Sequence -> Sequence)
      returns (stop: ListStop)
      modifies this`sequences, this`hasDecoys
      ensures var r := ListLoad(Meanings(lines, parent, fs), Loader(contents, FastaContext(IsTarget, filter, getSequences, reverse, shuffle)));
        && sequences == old(sequences) + r.added
        && hasDecoys == (old(hasDecoys) || r.decoys)
        && stop == r.stop
    {
      stop := LoadListLines(Meanings(lines, parent, fs), contents, getSequences, reverse, shuffle);
    }

    /** The loop of addFastaList over the lines of a list, each already read for what it asks. */
    method LoadListLines(ms: seq<ListLine>, contents: string -> seq<string>,
                         getSequences: (FastaFilter, Sequence) -> seq<Sequence>,
                         reverse: Sequence -> Sequence, shuffle: Sequence -> Sequence)
      returns (stop: ListStop)
      modifies this`sequences, this`hasDecoys
      ensures var r := ListLoad(ms, Loader(contents, FastaContext(IsTarget, filter, getSequences, reverse, shuffle)));
        && sequences == old(sequences) + r.added
        && hasDecoys == (old(hasDecoys) || r.decoys)
        && stop == r.stop
    {
      ghost var load := Loader(contents, FastaContext(IsTarget, filter, getSequences, reverse, shuffle));
      ghost var all := ListLoad(ms, load);
      var i := 0;
      while i < |ms|
        invariant 0 <= i <= |ms|
        invariant StillToLoad(all, ListLoad(ms[i..], load), old(sequences), sequences, old(hasDecoys), hasDecoys)
      {
        ghost var before := sequences;
        ghost var beforeDecoys := hasDecoys;
        var lineStop := AddFastaListLine(ms[i], contents, getSequences, reverse, shuffle);
        ListLoadStep(ms, i, load);
        if lineStop.Some? {
          return lineStop.value;
        }
        LoadedOneMore(all, LineStep(ms[i], load), ListLoad(ms[i + 1..], load), old(sequences), before, sequences,
                      old(hasDecoys), beforeDecoys, hasDecoys);
        i := i + 1;
      }
      assert ms[i..] == [];
      return Done;
    }

    /** addFilter: the new filter comes after the ones already in place. */
    method AddFilter(ff: FastaFilter)
      modifies this`filter
      ensures filter == Sequences.AddFilter(old(filter), ff)
    {
      if filter.NoFilter? {
        filter := ff;
      } else if filter.MultiFilter? {
        filter := MultiFilter(filter.filters + [ff]);
      } else {
        filter := MultiFilter([filter, ff]);
      }
    }

    /** Whether any FASTA text was read with a decoy policy other than IsTarget. */
    function HasDecoy(): bool
      reads this
    {
      hasDecoys
    }
  }

  /**
   * The loop of addFastaList, part way: what the whole list yields equals what has been appended
   * so far followed by what the lines still to read yield.
   */
  ghost predicate StillToLoad(all: ListResult, rest: ListResult, seqs0: seq<Sequence>, seqs: seq<Sequence>,
                              decoys0: bool, decoys: bool)
  {
    && all.stop == rest.stop
    && seqs0 + all.added == seqs + rest.added
    && (decoys0 || all.decoys) == (decoys || rest.decoys)
  }

  /** The list from line `i` on: its first line, then the lines after it unless that one stops. */
  lemma ListLoadStep(ms: seq<ListLine>, i: nat, load: FileLoader)
    requires i < |ms|
    ensures var st, rest := LineStep(ms[i], load), ListLoad(ms[i + 1..], load);
      ListLoad(ms[i..], load) ==
        if st.stop.Some? then ListResult(st.added, st.decoys, st.stop.value)
        else ListResult(st.added + rest.added, st.decoys || rest.decoys, rest.stop)
  {
    assert ms[i..][0] == ms[i] && ms[i..][1..] == ms[i + 1..];
  }

  /** A line that does not stop the load moves its sequences from what is left to what is done. */
  lemma LoadedOneMore(all: ListResult, st: LineResult, rest: ListResult, seqs0: seq<Sequence>,
                      before: seq<Sequence>, after: seq<Sequence>, decoys0: bool, dBefore: bool, dAfter: bool)
    requires StillToLoad(all, ListResult(st.added + rest.added, st.decoys || rest.decoys, rest.stop),
                         seqs0, before, decoys0, dBefore)
    requires after == before + st.added && dAfter == (dBefore || st.decoys)
    ensures StillToLoad(all, rest, seqs0, after, decoys0, dAfter)
  {
    AppendAssoc(before, st.added, rest.added);
  }

  /** One more item appended after `base` and the items before it, followed by its companion. */
  lemma CompanionsStep(base: seq<Sequence>, items: seq<Sequence>, j: nat, ctx: FastaContext)
    requires j < |items|
    ensures base + WithCompanions(items[..j + 1], ctx)
      == (base + WithCompanions(items[..j], ctx)) + ([items[j]] + Companion(items[j], ctx))
  {
    var t := items[..j + 1];
    assert t[..|t| - 1] == items[..j] && t[|t| - 1] == items[j];
    AppendAssoc(WithCompanions(items[..j], ctx), [items[j]], Companion(items[j], ctx));
    AppendAssoc(base, WithCompanions(items[..j], ctx), [items[j]] + Companion(items[j], ctx));
  }
}
