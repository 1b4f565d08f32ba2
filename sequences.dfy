/**
 * The value types the candidate list works on: protein sequences, their peptides, the decoy
 * policy and the chain of FASTA record filters. The bodies of Sequence.reverse, shuffle,
 * digest, modify and of FastaFilter.getSequences are not part of this model; the operations
 * that call them take them as function parameters.
 */
module Sequences {

  /** The residue a modification or label is attached to. */
  datatype AminoAcid = AminoAcid(code: string)

  /** SequenceList.DECOY_GENERATION. */
  datatype DecoyGeneration = IsTarget | IsDecoy | GenerateReversedDecoy | GenerateRandomizedDecoy

  /** A digested peptide; the list assigns its dense index in place. */
  class Peptide {
    var index: int
  }

  /** A protein: residues, FASTA header, decoy flag and the peptides digestion produced. */
  datatype Sequence = Sequence(residues: string, header: string, decoy: bool, peptides: seq<Peptide>)

  /** What Sequence.digest and Sequence.modify leave behind: the updated sequence and the count they return. */
  datatype Counted = Counted(sequence: Sequence, count: nat)

  /** The sum of the counts `f` reports for the sequences of `ss`, taken in list order. */
  function SumCounts(ss: seq<Sequence>, f: Sequence -> Counted): nat {
    if ss == [] then 0 else SumCounts(ss[..|ss| - 1], f) + f(ss[|ss| - 1]).count
  }

  /** Counting over a concatenation is adding the counts of the two parts. */
  lemma {:induction false} SumCountsAppend(a: seq<Sequence>, b: seq<Sequence>, f: Sequence -> Counted)
    ensures SumCounts(a + b, f) == SumCounts(a, f) + SumCounts(b, f)
  {
    if b != [] {
      assert (a + b)[..|a + b| - 1] == a + b[..|b| - 1];
      SumCountsAppend(a, b[..|b| - 1], f);
    } else {
      assert a + b == a;
    }
  }

  /** The sequences `f` leaves behind, element by element. */
  function Applied(ss: seq<Sequence>, f: Sequence -> Counted): seq<Sequence> {
    if ss == [] then [] else Applied(ss[..|ss| - 1], f) + [f(ss[|ss| - 1]).sequence]
  }

  /** `Applied` keeps one sequence per input, in place: the `k`-th is what `f` makes of the `k`-th. */
  lemma {:induction false} AppliedAt(ss: seq<Sequence>, f: Sequence -> Counted, k: nat)
    requires k < |ss|
    ensures |Applied(ss, f)| == |ss| && Applied(ss, f)[k] == f(ss[k]).sequence
  {
    if k < |ss| - 1 {
      AppliedAt(ss[..|ss| - 1], f, k);
    } else {
      AppliedLength(ss[..|ss| - 1], f);
    }
  }

  lemma {:induction false} AppliedLength(ss: seq<Sequence>, f: Sequence -> Counted)
    ensures |Applied(ss, f)| == |ss|
  {
    if ss != [] {
      AppliedLength(ss[..|ss| - 1], f);
    }
  }

  /** The decoys an include* method derives: one per sequence, in order, each flagged decoy. */
  function DecoysOf(ss: seq<Sequence>, derive: Sequence -> Sequence): seq<Sequence> {
    seq(|ss|, k requires 0 <= k < |ss| => derive(ss[k]).(decoy := true))
  }

  // ---- the peptide iterator ----

  /**
   * What SequenceList.peptides() yields: for each sequence in list order its peptides in
   * order, or a single null for a sequence without peptides.
   */
  function PeptideOrder(ss: seq<Sequence>): seq<Peptide?> {
    if ss == [] then []
    else
      var s := ss[|ss| - 1];
      PeptideOrder(ss[..|ss| - 1]) + (if s.peptides == [] then [null] else s.peptides)
  }

  /** Every peptide of every sequence, sequence by sequence. */
  function AllPeptides(ss: seq<Sequence>): seq<Peptide> {
    if ss == [] then [] else AllPeptides(ss[..|ss| - 1]) + ss[|ss| - 1].peptides
  }

  /** The non-null elements of `ps`, in order. */
  function NonNull(ps: seq<Peptide?>): (r: seq<Peptide>)
    ensures |r| <= |ps|
  {
    if ps == [] then []
    else NonNull(ps[..|ps| - 1]) + (if ps[|ps| - 1] == null then [] else [ps[|ps| - 1]])
  }

  lemma {:induction false} NonNullAppend(a: seq<Peptide?>, b: seq<Peptide?>)
    ensures NonNull(a + b) == NonNull(a) + NonNull(b)
  {
    if b != [] {
      assert (a + b)[..|a + b| - 1] == a + b[..|b| - 1];
      NonNullAppend(a, b[..|b| - 1]);
    } else {
      assert a + b == a;
    }
  }

  lemma {:induction false} NonNullOfPeptides(ps: seq<Peptide>)
    ensures NonNull(ps) == ps
  {
    if ps != [] {
      NonNullOfPeptides(ps[..|ps| - 1]);
      assert ps == ps[..|ps| - 1] + [ps[|ps| - 1]];
    }
  }

  /** One more element of the iteration adds itself to the non-null prefix, or nothing when it is null. */
  lemma {:induction false} NonNullStep(ps: seq<Peptide?>, i: nat)
    requires i < |ps|
    ensures NonNull(ps[..i + 1]) == NonNull(ps[..i]) + (if ps[i] == null then [] else [ps[i]])
  {
    assert ps[..i + 1][..i] == ps[..i];
  }

  /** The non-null elements of a prefix are a prefix of the non-null elements. */
  lemma {:induction false} NonNullPrefix(ps: seq<Peptide?>, i: nat)
    requires i <= |ps|
    ensures |NonNull(ps[..i])| <= |NonNull(ps)| && NonNull(ps)[..|NonNull(ps[..i])|] == NonNull(ps[..i])
  {
    assert ps == ps[..i] + ps[i..];
    NonNullAppend(ps[..i], ps[i..]);
  }

  /** Dropping the nulls of the iteration leaves exactly all peptides, in sequence order. */
  lemma {:induction false} PeptideOrderNonNull(ss: seq<Sequence>)
    ensures NonNull(PeptideOrder(ss)) == AllPeptides(ss)
  {
    if ss != [] {
      var s := ss[|ss| - 1];
      PeptideOrderNonNull(ss[..|ss| - 1]);
      NonNullAppend(PeptideOrder(ss[..|ss| - 1]), if s.peptides == [] then [null] else s.peptides);
      if s.peptides == [] {
        assert NonNull([null]) == NonNull([]) + [];
      } else {
        NonNullOfPeptides(s.peptides);
      }
    }
  }

  /** The number of sequences without peptides, each of which the iterator reports as a null. */
  function CountEmpty(ss: seq<Sequence>): nat {
    if ss == [] then 0 else CountEmpty(ss[..|ss| - 1]) + (if ss[|ss| - 1].peptides == [] then 1 else 0)
  }

  /** The iterator yields one element per peptide plus one null per sequence without peptides. */
  lemma {:induction false} PeptideOrderLength(ss: seq<Sequence>)
    ensures |PeptideOrder(ss)| == |AllPeptides(ss)| + CountEmpty(ss)
  {
    if ss != [] {
      PeptideOrderLength(ss[..|ss| - 1]);
    }
  }

  /** Every peptide's index is a position of `ps` holding that same peptide. */
  ghost predicate IndexesPointBack(ps: seq<Peptide>)
    reads set k | 0 <= k < |ps| :: ps[k]
  {
    forall k | 0 <= k < |ps| :: 0 <= ps[k].index < |ps| && ps[ps[k].index] == ps[k]
  }

  /** Every peptide's index is its own position in `ps`. */
  ghost predicate IndexedInOrder(ps: seq<Peptide>)
    reads set k | 0 <= k < |ps| :: ps[k]
  {
    forall k | 0 <= k < |ps| :: ps[k].index == k
  }

  /** No peptide appears twice. */
  predicate Distinct(ps: seq<Peptide>) {
    forall i, j | 0 <= i < j < |ps| :: ps[i] != ps[j]
  }

  /** In a list without repetitions no element occurs before its own position. */
  lemma DistinctNotBefore(ps: seq<Peptide>, n: nat)
    requires Distinct(ps) && n < |ps|
    ensures ps[n] !in ps[..n]
  {
  }

  // ---- the FASTA record filter chain ----

  /** A FastaFilter: the NoFilter default, a single filter, or a MultiFilter of filters in order. */
  datatype FastaFilter = NoFilter | Filter(name: string) | MultiFilter(filters: seq<FastaFilter>)

  /** The filter SequenceList.addFilter(ff) leaves in place of `current`. */
  function AddFilter(current: FastaFilter, ff: FastaFilter): FastaFilter {
    match current
    case NoFilter => ff
    case MultiFilter(fs) => MultiFilter(fs + [ff])
    case Filter(_) => MultiFilter([current, ff])
  }

  /** The filters a record passes through, in order. */
  function Chain(f: FastaFilter): seq<FastaFilter> {
    match f
    case NoFilter => []
    case Filter(_) => [f]
    case MultiFilter(fs) => fs
  }

  /** The filter after adding each of `ffs` in turn to `start`. */
  function AddFilters(start: FastaFilter, ffs: seq<FastaFilter>): FastaFilter {
    if ffs == [] then start else AddFilter(AddFilters(start, ffs[..|ffs| - 1]), ffs[|ffs| - 1])
  }

  /** Adding a filter puts it at the end of the chain (a composite added first is adopted as it is). */
  lemma AddFilterAppends(current: FastaFilter, ff: FastaFilter)
    requires ff.Filter? || !current.NoFilter?
    ensures Chain(AddFilter(current, ff)) == Chain(current) + [ff]
  {
  }

  /** Filters added one by one to the NoFilter default form a chain in insertion order. */
  lemma {:induction false} AddFiltersInOrder(ffs: seq<FastaFilter>)
    requires forall k | 0 <= k < |ffs| :: ffs[k].Filter?
    ensures Chain(AddFilters(NoFilter, ffs)) == ffs
    ensures |ffs| >= 2 ==> AddFilters(NoFilter, ffs) == MultiFilter(ffs)
  {
    if ffs != [] {
      var init := ffs[..|ffs| - 1];
      AddFiltersInOrder(init);
      var f := AddFilters(NoFilter, init);
      if init == [] {
        assert f == NoFilter;
      } else if |init| == 1 {
        assert f == init[0];
      } else {
        assert f == MultiFilter(init);
      }
      AddFilterAppends(f, ffs[|ffs| - 1]);
      assert ffs == init + [ffs[|ffs| - 1]];
    }
  }
}
